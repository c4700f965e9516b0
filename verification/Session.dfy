/** Runs of reads, writes and remounts over one cache file, against one flat array of bytes. */
module Session {
  import opened Bytes
  import opened Stdio
  import opened CacheLayout
  import opened VirtImage

  datatype Request =
    | Read(offset: nat, size: nat)
    | Write(offset: nat, buf: seq<byte>)
    | Remount(kind: ImageType, vdiHeader: seq<byte>, vhdFooter: seq<byte>)

  /** One request with its return value and the bytes read. */
  datatype Event = Event(request: Request, ret: int, bytes: seq<byte>)

  /**
   * The output image: its format and its parts as plain bytes. With it goes what decides about failures: which regions
   * are cached, and how much room the cache file has left.
   */
  datatype Flat = Flat(kind: ImageType, vdi: seq<byte>, data: seq<byte>, vhd: seq<byte>, layout: Layout, room: int)
  {
    function View(): seq<byte> {
      Whole(kind, vdi, data, vhd)
    }

    predicate SameSizes(g: Flat) {
      && |g.vdi| == |vdi| && |g.data| == |data| && |g.vhd| == |vhd|
      && g.layout.blockSize == layout.blockSize
    }

    /** The first image position that a request at `offset` touches. */
    function DataFrom(offset: nat): nat {
      if kind != VDI then offset else if offset < |vdi| then 0 else offset - |vdi|
    }

    /** How many image bytes a request touches. */
    function DataCount(offset: nat, count: nat): nat {
      match kind
      case VDI => if offset >= |vdi| then count else if offset + count > |vdi| then offset + count - |vdi| else 0
      case VHD => if offset >= |data| then 0 else Min(count, |data| - offset)
      case _ => count
    }

    /** A write that fails even when there is room. */
    predicate Refuses(offset: nat, n: nat)
      requires layout.blockSize > 0
    {
      || offset >= |View()|
      || (n == 0 && kind == VDI && offset < |vdi|)
      || ReachesShortTail(layout, |data|, DataFrom(offset), DataCount(offset, Min(n, |View()| - offset)))
    }

    /** Where a failed write may have been cut. */
    predicate CutAt(pos: nat)
      requires layout.blockSize > 0
    {
      || (kind == VDI && pos == |vdi|)
      || (kind == VDI && pos > |vdi| && (pos - |vdi|) % layout.blockSize == 0)
      || (kind != VDI && pos % layout.blockSize == 0)
      || (kind == VHD && pos == |data|)
    }
  }

  /** What one request does to the flat image, of which the first k bytes take effect, and what it returns. */
  ghost predicate Follows(e: Event, k: nat, f: Flat, g: Flat) {
    && f.SameSizes(g) && Extends(f.layout, g.layout)
    && match e.request
       case Read(offset, size) => FollowsRead(e, offset, size, f, g)
       case Write(offset, buf) => FollowsWrite(e, offset, buf, k, f, g)
       case Remount(kind, vdiHeader, vhdFooter) =>
         && g.kind == kind && g.data == f.data && g.room == f.room
         && g.vdi == (if Live(f.layout, VdiHeader) then f.vdi else vdiHeader)
         && g.vhd == (if Live(f.layout, VhdFooter) then f.vhd else vhdFooter)
  }

  /** A read gets a slice of the image and changes nothing; it fails only for 0 bytes of a cached VDI header. */
  ghost predicate FollowsRead(e: Event, offset: nat, size: nat, f: Flat, g: Flat) {
    && g == f
    && (e.ret < 0 <==> f.kind == VDI && Live(f.layout, VdiHeader) && offset < |f.vdi| && size == 0)
    && (e.ret >= 0 ==> e.ret == if offset < |f.View()| then Min(size, |f.View()| - offset) else 0)
    && (e.ret > 0 ==> e.bytes == f.View()[offset..offset + e.ret])
  }

  /**
   * A write overwrites a stretch of the image. With room in the cache file it fails exactly when the request is refused;
   * it has taken effect then up to a place where it may be cut.
   */
  ghost predicate FollowsWrite(e: Event, offset: nat, buf: seq<byte>, k: nat, f: Flat, g: Flat) {
    && f.layout.blockSize > 0
    && g.kind == f.kind
    && (f.kind != VDI ==> g.vdi == f.vdi) && (f.kind != VHD ==> g.vhd == f.vhd)
    && (if offset >= |f.View()| then e.ret == -1 && k == 0 && g.View() == f.View()
        else
          && k <= |buf| && offset + k <= |f.View()|
          && g.View() == Splice(f.View(), offset, buf[..k])
          && (e.ret == -1 || e.ret == k == Min(|buf|, |f.View()| - offset))
          && (e.ret == -1 ==> k == 0 || f.CutAt(offset + k)))
    && (f.Refuses(offset, |buf|) ==> e.ret == -1)
    && (e.ret == -1 ==> f.Refuses(offset, |buf|) || |buf| + 2 * f.layout.blockSize + |f.vdi| + |f.vhd| > f.room)
  }

  /** A sequence of events, with how far each took effect, and the states before, between and after them. */
  ghost predicate IsRun(events: seq<Event>, cuts: seq<nat>, states: seq<Flat>) {
    && |cuts| == |events| && |states| == |events| + 1
    && forall i :: 0 <= i < |events| ==> Follows(events[i], cuts[i], states[i], states[i + 1])
  }

  ghost function FlatOf(x: Xmount): Flat
    reads x, x.cache, x.blkidx
    requires x.blockSize > 0
  {
    Flat(x.kind, x.Part(VdiHeader), x.Data(), x.Part(VhdFooter), x.L(), if x.cache == null then 0 else x.cache.capacity - |x.cache.data|)
  }

  /** Closes the mount and mounts the same image with the same cache file again, possibly in another format. */
  method Reopen(x: Xmount, kind: ImageType, vdiHeader: seq<byte>, vhdFooter: seq<byte>) returns (y: Xmount)
    requires x.Valid() && x.cache != null && NeededBlocks(|x.image|, x.blockSize) < U32
    requires |vdiHeader| == |x.vdiHeader| && |vhdFooter| == |x.vhdFooter|
    modifies x.cache
    ensures fresh(y) && fresh(y.blkidx) && y.Valid() && y.cache == x.cache
    ensures y.image == x.image && y.blockSize == x.blockSize && y.kind == kind
    ensures y.vdiHeader == vdiHeader && y.vhdFooter == vhdFooter
    ensures x.cache.data == old(x.cache.data)
    ensures Extends(old(x.L()), y.L())
    ensures y.Data() == old(x.Data())
    ensures y.Part(VdiHeader) == if old(Live(x.L(), VdiHeader)) then old(x.Part(VdiHeader)) else vdiHeader
    ensures y.Part(VhdFooter) == if old(Live(x.L(), VhdFooter)) then old(x.Part(VhdFooter)) else vhdFooter
  {
    hide Ready, DataView, Content;
    x.CacheFacts();
    Acceptable(x.L(), x.cache.data);
    Reload(x.L(), DiskLayout(x.cache.data, x.blockSize, |x.vdiHeader|, x.blkidx.Length), x.image, x.cache.data);
    y := new Xmount(x.image, kind, x.blockSize, vdiHeader, vhdFooter);
    var ok := y.InitCacheFile(x.cache, false);
  }

  /** A file that agrees with memory passes the checks. */
  lemma Acceptable(l: Layout, data: seq<byte>)
    requires Ready(l, data)
    ensures Accepted(data, l.blockSize, |l.idx|)
    ensures |data| >= HEADER_SIZE && DecodeHeader(data).pBlockIndex == HEADER_SIZE && l.blockSize < U64
  {
    hide DecodeHeader, DecodeEntry;
  }

  /** The requests a caller may make of this mount: headers keep the size they have for the image. */
  predicate Allowed(x: Xmount, request: Request)
  {
    request.Remount? ==> |request.vdiHeader| == |x.vdiHeader| && |request.vhdFooter| == |x.vhdFooter|
  }

  method ServeRead(x: Xmount, offset: nat, size: nat) returns (e: Event)
    requires x.Valid() && x.cache != null
    modifies x, x.cache
    ensures x.Valid() && x.cache == old(x.cache) && x.blkidx == old(x.blkidx)
    ensures e.request == Read(offset, size) && Follows(e, 0, old(FlatOf(x)), FlatOf(x))
  {
    hide Ready, DataView, PartView, Content, NeededBlocks, Live, Whole, Extends, Xmount.Valid, Xmount.View;
    FlatFacts(x);
    ExtendsSelf(x.L());
    var p_buf := new byte[size];
    ghost var before := p_buf[..];
    var ret := x.GetVirtImageData(p_buf, offset, size);
    e := Event(Read(offset, size), ret, if ret > 0 then p_buf[..ret] else []);
  }

  method ServeWrite(x: Xmount, offset: nat, buf: seq<byte>) returns (e: Event, ghost k: nat)
    requires x.Valid() && x.cache != null
    modifies x, x.cache, x.blkidx
    ensures x.Valid() && x.cache == old(x.cache) && x.blkidx == old(x.blkidx)
    ensures e.request == Write(offset, buf) && Follows(e, k, old(FlatOf(x)), FlatOf(x))
  {
    hide Ready, DataView, PartView, Content, Splice, NeededBlocks, Live, Extends, Whole, ReachesShortTail, Flat.Refuses, Flat.CutAt;
    hide Xmount.ShowsPart, Xmount.Refuses, Xmount.CutAt, Xmount.Valid, Xmount.View;
    FlatFacts(x);
    var ret;
    ret, k := x.SetVirtImageData(buf, offset);
    FlatFacts(x);
    e := Event(Write(offset, buf), ret, []);
    if offset >= x.ViewSize() {
      k := 0;
    }
  }

  /** What the contracts of the mount say of its flat image. */
  lemma FlatFacts(x: Xmount)
    requires x.Valid() && x.cache != null
    ensures var f := FlatOf(x);
      && f.View() == x.View() && |f.View()| == x.ViewSize() && f.layout.blockSize == x.blockSize > 0
      && |f.vdi| == |x.vdiHeader| && |f.vhd| == |x.vhdFooter| && |f.data| == |x.image|
      && (forall offset: nat, n: nat :: f.Refuses(offset, n) == x.Refuses(offset, n))
      && (forall pos: nat :: f.CutAt(pos) == x.CutAt(pos))
  {
    hide Xmount.Refuses, Flat.Refuses, Xmount.CutAt, Flat.CutAt, FlatOf;
    FlatSizes(x);
    forall offset: nat, n: nat
      ensures FlatOf(x).Refuses(offset, n) == x.Refuses(offset, n)
    {
      SameRefusal(x, offset, n);
    }
    forall pos: nat
      ensures FlatOf(x).CutAt(pos) == x.CutAt(pos)
    {
      SameCut(x, pos);
    }
  }

  lemma FlatSizes(x: Xmount)
    requires x.Valid() && x.cache != null
    ensures var f := FlatOf(x);
      && f.View() == x.View() && |f.View()| == x.ViewSize() && f.layout.blockSize == x.blockSize > 0
      && |f.vdi| == |x.vdiHeader| && |f.vhd| == |x.vhdFooter| && |f.data| == |x.image|
  {
    hide Ready, DataView, PartView, NeededBlocks;
    x.ViewLength();
  }

  lemma SameRefusal(x: Xmount, offset: nat, n: nat)
    requires x.Valid() && x.cache != null && FlatOf(x).layout.blockSize == x.blockSize > 0
    ensures FlatOf(x).Refuses(offset, n) == x.Refuses(offset, n)
  {
    hide Ready, DataView, PartView, NeededBlocks, ReachesShortTail, Whole, Xmount.Valid, Xmount.Data, Xmount.Part;
    FlatSizes(x);
  }

  lemma SameCut(x: Xmount, pos: nat)
    requires x.Valid() && x.cache != null && FlatOf(x).layout.blockSize == x.blockSize > 0
    ensures FlatOf(x).CutAt(pos) == x.CutAt(pos)
  {
    hide Ready, DataView, PartView, NeededBlocks, Whole, Xmount.Valid, Xmount.Data, Xmount.Part;
    FlatSizes(x);
  }

  /** Serves one request, on the mount it leads to. */
  method Serve(x: Xmount, request: Request) returns (y: Xmount, e: Event, ghost k: nat)
    requires x.Valid() && x.cache != null && NeededBlocks(|x.image|, x.blockSize) < U32
    requires Allowed(x, request)
    modifies x, x.cache, x.blkidx
    ensures y.Valid() && y.cache == old(x.cache)
    ensures y == x || fresh(y)
    ensures y.blkidx == old(x.blkidx) || fresh(y.blkidx)
    ensures y.image == x.image && y.blockSize == x.blockSize
    ensures |y.vdiHeader| == |x.vdiHeader| && |y.vhdFooter| == |x.vhdFooter|
    ensures Extends(old(x.L()), y.L())
    ensures e.request == request && Follows(e, k, old(FlatOf(x)), FlatOf(y))
  {
    hide Ready, DataView, PartView, Content, Splice, NeededBlocks, Live, Whole, Extends, Xmount.Valid, Xmount.View, FollowsRead, FollowsWrite;
    k := 0;
    match request {
      case Read(offset, size) =>
        y := x;
        e := ServeRead(x, offset, size);
      case Write(offset, buf) =>
        y := x;
        e, k := ServeWrite(x, offset, buf);
      case Remount(kind, vdiHeader, vhdFooter) =>
        FlatFacts(x);
        y := Reopen(x, kind, vdiHeader, vhdFooter);
        FlatFacts(y);
        e := Event(request, 0, []);
    }
  }

  /** Serves requests one after the other, remounting where asked to. */
  method Run(x: Xmount, requests: seq<Request>) returns (y: Xmount, events: seq<Event>, ghost cuts: seq<nat>, ghost states: seq<Flat>)
    requires x.Valid() && x.cache != null && NeededBlocks(|x.image|, x.blockSize) < U32
    requires forall r :: r in requests ==> Allowed(x, r)
    modifies x, x.cache, x.blkidx
    ensures y.Valid() && y.cache == old(x.cache) && y.image == x.image
    ensures |events| == |requests| && forall i :: 0 <= i < |events| ==> events[i].request == requests[i]
    ensures Extends(old(x.L()), y.L())
    ensures IsRun(events, cuts, states)
    ensures states[0] == old(FlatOf(x)) && states[|events|] == FlatOf(y)
  {
    hide Ready, DataView, PartView, NeededBlocks, Live, Whole, FlatOf, Follows, Xmount.Valid, Extends;
    y, events, cuts, states := x, [], [], [FlatOf(x)];
    ExtendsSelf(x.L());
    for n := 0 to |requests|
      invariant y.Valid() && y.cache == old(x.cache) != null && (y == x || fresh(y))
      invariant y.blkidx == old(x.blkidx) || fresh(y.blkidx)
      invariant y.image == x.image && y.blockSize == x.blockSize
      invariant |y.vdiHeader| == |x.vdiHeader| && |y.vhdFooter| == |x.vhdFooter|
      invariant |events| == n && forall i :: 0 <= i < n ==> events[i].request == requests[i]
      invariant Extends(old(x.L()), y.L())
      invariant IsRun(events, cuts, states)
      invariant states[0] == old(FlatOf(x)) && states[n] == FlatOf(y)
    {
      var e;
      ghost var k;
      assert Allowed(x, requests[n]);
      ghost var l := y.L();
      y, e, k := Serve(y, requests[n]);
      ExtendsTransitive(old(x.L()), l, y.L());
      events, cuts, states := events + [e], cuts + [k], states + [FlatOf(y)];
    }
  }

  /** In every run, a region that is cached stays cached, and where it is. */
  lemma {:induction false} RegionsStay(events: seq<Event>, cuts: seq<nat>, states: seq<Flat>, i: nat, j: nat)
    requires IsRun(events, cuts, states) && i <= j <= |events|
    ensures Extends(states[i].layout, states[j].layout)
    decreases j
  {
    hide Extends, FollowsRead, FollowsWrite;
    if i < j {
      RegionsStay(events, cuts, states, i, j - 1);
      assert Follows(events[j - 1], cuts[j - 1], states[j - 1], states[j]);
      ExtendsTransitive(states[i].layout, states[j - 1].layout, states[j].layout);
    } else {
      ExtendsSelf(states[i].layout);
    }
  }

  /** What the run has last written to byte i of the image, in whatever format it was mounted then. */
  ghost function LastWritten(events: seq<Event>, cuts: seq<nat>, states: seq<Flat>, n: nat, i: nat): Option<byte>
    requires n <= |events| == |cuts| < |states|
  {
    if n == 0 then None else
    var before := states[n - 1];
    var pos := DataStart(before.kind, |before.vdi|) + i;
    match events[n - 1].request
    case Write(offset, buf) =>
      if offset <= pos < offset + cuts[n - 1] && pos - offset < |buf| then Some(buf[pos - offset])
      else LastWritten(events, cuts, states, n - 1, i)
    case _ => LastWritten(events, cuts, states, n - 1, i)
  }

  /** In every run, each byte of the image is what was last written there, and before that the original one. */
  lemma {:induction false} LastWriteWins(events: seq<Event>, cuts: seq<nat>, states: seq<Flat>, n: nat, i: nat)
    requires IsRun(events, cuts, states) && n <= |events| && i < |states[0].data|
    ensures |states[n].data| == |states[0].data|
    ensures states[n].data[i] ==
      match LastWritten(events, cuts, states, n, i)
      case Some(b) => b
      case None => states[0].data[i]
  {
    if n > 0 {
      LastWriteWins(events, cuts, states, n - 1, i);
      OneStep(events[n - 1], cuts[n - 1], states[n - 1], states[n], i);
    }
  }

  lemma SameData(e: Event, offset: nat, size: nat, f: Flat, g: Flat)
    requires FollowsRead(e, offset, size, f, g)
    ensures g == f
  {
  }

  /** Where byte i of the image is in the output image. */
  lemma DataInView(f: Flat, i: nat)
    requires i < |f.data|
    ensures var pos := DataStart(f.kind, |f.vdi|) + i; pos < |f.View()| && f.View()[pos] == f.data[i]
  {
    hide Whole;
    WholeData(f.kind, f.vdi, f.data, f.vhd, i, 1);
    var pos := DataStart(f.kind, |f.vdi|) + i;
    assert f.View()[pos] == f.View()[pos..pos + 1][0] == f.data[i..i + 1][0];
  }

  lemma SpliceByte(s: seq<byte>, at: nat, t: seq<byte>, i: nat)
    requires at + |t| <= |s| && i < |s|
    ensures Splice(s, at, t)[i] == if at <= i < at + |t| then t[i - at] else s[i]
  {
  }

  /** One request changes byte i of the image exactly when it is a write that takes effect there. */
  lemma OneStep(e: Event, k: nat, f: Flat, g: Flat, i: nat)
    requires Follows(e, k, f, g) && i < |f.data|
    ensures |g.data| == |f.data|
    ensures var pos := DataStart(f.kind, |f.vdi|) + i;
      g.data[i] == if e.request.Write? && e.request.offset <= pos < e.request.offset + k
                   then e.request.buf[pos - e.request.offset] else f.data[i]
  {
    hide Extends, FollowsRead, Flat.Refuses, Flat.CutAt, ReachesShortTail, Live;
    var pos := DataStart(f.kind, |f.vdi|) + i;
    match e.request {
      case Read(offset, size) => assert FollowsRead(e, offset, size, f, g); SameData(e, offset, size, f, g);
      case Write(offset, buf) =>
        assert FollowsWrite(e, offset, buf, k, f, g);
        DataInView(f, i);
        DataInView(g, i);
        hide Whole;
        if offset < |f.View()| {
          SpliceByte(f.View(), offset, buf[..k], pos);
        }
      case Remount(kind, vdiHeader, vhdFooter) =>
    }
  }

  /** Mounting what a crash left behind shows exactly the output image that those contents stand for. */
  method MountAfterCrash(x: Xmount, h: seq<byte>, capacity: nat, ghost view: seq<byte>) returns (y: Xmount)
    requires x.blockSize > 0 && |x.vdiHeader| > 0 && |x.vhdFooter| == VHD_FOOTER_SIZE
    requires NeededBlocks(|x.image|, x.blockSize) < U32 && |h| <= capacity < U64
    requires x.Shows(h, view)
    ensures fresh(y) && y.Valid() && y.cache != null && y.cache.data == h
    ensures y.View() == view
  {
    hide Ready, DataView, Content, DiskLayout, NeededBlocks;
    ghost var d := DiskLayout(h, x.blockSize, |x.vdiHeader|, NeededBlocks(|x.image|, x.blockSize));
    DiskSizes(h, x.blockSize, |x.vdiHeader|, NeededBlocks(|x.image|, x.blockSize));
    Acceptable(d, h);
    var file := new File(h, capacity);
    y := new Xmount(x.image, x.kind, x.blockSize, x.vdiHeader, x.vhdFooter);
    var ok := y.InitCacheFile(file, false);
  }

  lemma DiskSizes(h: seq<byte>, blockSize: nat, vdiSize: nat, blocks: nat)
    requires EntryOffset(blocks) <= |h|
    ensures var d := DiskLayout(h, blockSize, vdiSize, blocks);
      d.blockSize == blockSize && d.vdiSize == vdiSize && |d.idx| == blocks
  {
  }
}
