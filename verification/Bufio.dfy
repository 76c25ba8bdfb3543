/** The paged byte queue of src/utils/bufio.c. Callers' buffers are sequences; the
    pages are arrays that the operations write in place. */
module Bufio {

  type Byte = b: int | 0 <= b < 256

  const PAGE_SIZE := 4096

  function Min(a: int, b: int): int { if a < b then a else b }

  /** bio_page_t. */
  class BioPage {
    var start: nat
    var end: nat
    const page: array<Byte>

    ghost predicate Valid()
      reads this
    {
      page.Length == PAGE_SIZE && start == 0 && end <= PAGE_SIZE
    }

    ghost function Data(): seq<Byte>
      requires Valid()
      reads this, page
    {
      page[start..end]
    }

    constructor ()
      ensures Valid() && Data() == [] && fresh(page)
    {
      start, end := 0, 0;
      page := new Byte[PAGE_SIZE](_ => 0);
    }

    /** bio_page_copy. */
    method Copy(sz: nat) returns (out: seq<Byte>)
      requires Valid()
      ensures out == Data()[..Min(sz, |Data()|)]
    {
      var n := if end - start > sz then sz else end - start;
      out := page[start..start + n];
    }

    /** bio_page_read: takes bytes off the front and moves the rest to the start. */
    method Read(sz: nat) returns (out: seq<Byte>)
      requires Valid()
      modifies this, page
      ensures Valid()
      ensures var n := Min(sz, |old(Data())|); out == old(Data())[..n] && Data() == old(Data())[n..]
    {
      var n := if end - start > sz then sz else end - start;
      out := page[start..start + n];
      start := start + n;
      ghost var was := page[..];
      var i := 0;
      while i < end - start
        invariant 0 <= i <= end - start
        invariant forall k :: 0 <= k < i ==> page[k] == was[start + k]
        invariant forall k :: i <= k < page.Length ==> page[k] == was[k]
        modifies page
      {
        page[i] := page[start + i];
        i := i + 1;
      }
      assert page[..i] == was[start..end];
      end := end - start;
      start := 0;
    }

    /** bio_page_write: appends as much as fits. */
    method Write(buff: seq<Byte>) returns (n: nat)
      requires Valid()
      modifies this, page
      ensures Valid() && n == Min(|buff|, PAGE_SIZE - |old(Data())|)
      ensures Data() == old(Data()) + buff[..n]
    {
      n := if PAGE_SIZE - (end - start) > |buff| then |buff| else PAGE_SIZE - (end - start);
      ghost var was := page[..];
      var i := 0;
      while i < n
        invariant 0 <= i <= n
        invariant page[..end] == was[..end] && page[end..end + i] == buff[..i]
        modifies page
      {
        page[end + i] := buff[i];
        i := i + 1;
      }
      end := end + n;
      assert page[..end] == page[..end - n] + page[end - n..end];
    }
  }

  /** The bytes of a page list, front first. */
  ghost function Flat(pages: seq<BioPage>): seq<Byte>
    requires forall p :: p in pages ==> p.Valid()
    reads pages, set p | p in pages :: p.page
  {
    if pages == [] then [] else pages[0].Data() + Flat(pages[1..])
  }

  ghost predicate Apart(pages: seq<BioPage>) {
    forall i, j :: 0 <= i < j < |pages| ==> pages[i] != pages[j] && pages[i].page != pages[j].page
  }

  lemma {:induction false} FlatConcat(a: seq<BioPage>, b: seq<BioPage>)
    requires forall p :: p in a + b ==> p.Valid()
    ensures (forall p :: p in a ==> p.Valid()) && (forall p :: p in b ==> p.Valid())
    ensures Flat(a + b) == Flat(a) + Flat(b)
  {
    forall p | p in a ensures p in a + b {}
    forall p | p in b ensures p in a + b {}
    if a == [] {
      assert a + b == b;
    } else {
      assert (a + b)[1..] == a[1..] + b;
      FlatConcat(a[1..], b);
    }
  }

  lemma TailPages(pages: seq<BioPage>)
    requires Apart(pages) && pages != []
    ensures Apart(pages[1..]) && forall p :: p in pages[1..] ==> p in pages && p != pages[0] && p.page != pages[0].page
  {
  }

  lemma FlatFirst(pages: seq<BioPage>)
    requires pages != [] && forall p :: p in pages ==> p.Valid()
    ensures (forall p :: p in pages[1..] ==> p.Valid()) && Flat(pages) == pages[0].Data() + Flat(pages[1..])
  {
  }

  lemma TakeFirst(data: seq<Byte>, rest: seq<Byte>, n: nat)
    requires n <= |data|
    ensures (data + rest)[..n] == data[..n] && (data + rest)[n..] == data[n..] + rest
  {
  }

  lemma NewPage(pages: seq<BioPage>, bp: BioPage)
    requires Apart(pages) && bp.Valid() && bp.Data() == []
    requires forall p :: p in pages ==> p.Valid() && p != bp && p.page != bp.page
    ensures (forall p :: p in pages + [bp] ==> p.Valid()) && Apart(pages + [bp]) && Flat(pages + [bp]) == Flat(pages)
  {
    FlatConcat(pages, [bp]);
    assert Flat([bp]) == [] && Flat(pages) + [] == Flat(pages);
  }

  lemma FrontIn(pages: seq<BioPage>)
    requires pages != []
    ensures forall p :: p in pages[..|pages| - 1] ==> p in pages
  {
  }

  /** One page of a copy: either the wanted sz bytes are complete or the whole page was taken. */
  lemma CopyStep(all: seq<Byte>, out: seq<Byte>, data: seq<Byte>, rest: seq<Byte>, sz: nat)
    requires |out| <= sz && all == out + (data + rest)
    ensures var next := out + data[..Min(sz - |out|, |data|)];
      && |next| <= sz
      && if |next| == sz then next == all[..sz] && |all| >= sz else next == out + data && all == next + rest
  {
    var n := Min(sz - |out|, |data|);
    var next := out + data[..n];
    if |next| == sz {
      assert all == next + (data[n..] + rest);
    } else {
      assert data[..n] == data;
      assert all == (out + data) + rest;
    }
  }

  lemma AppendStep(all: seq<Byte>, buff: seq<Byte>, k: nat, n: nat)
    requires k + n <= |buff|
    ensures (all + buff[..k]) + buff[k..][..n] == all + buff[..k + n]
  {
  }

  lemma SliceStep(all: seq<Byte>, k: nat, n: nat)
    requires k + n <= |all|
    ensures all[..k] + all[k..][..n] == all[..k + n] && all[k..][n..] == all[k + n..]
  {
  }

  /** What an external read or write reports: bytes moved, or an error that is
      either EAGAIN or fatal. */
  datatype ReadResult = ReadBytes(data: seq<Byte>) | ReadError(again: bool)
  datatype WriteResult = Wrote(n: nat) | WriteError(again: bool)

  /** The bytes delivered before the first error. */
  ghost function Delivered(script: seq<ReadResult>): seq<Byte> {
    if script == [] || script[0].ReadError? then [] else script[0].data + Delivered(script[1..])
  }

  /** The first error is not EAGAIN. */
  ghost predicate Fatal(script: seq<ReadResult>) {
    script != [] && if script[0].ReadError? then !script[0].again else Fatal(script[1..])
  }

  /** How many of `avail` bytes a scripted writer takes, offered at most a page at a
      time until nothing is left or the first error. */
  ghost function Accepted(script: seq<WriteResult>, avail: nat): (n: nat)
    ensures n <= avail
  {
    if avail == 0 || script == [] || script[0].WriteError? then 0
    else var n := Min(script[0].n, Min(avail, PAGE_SIZE)); n + Accepted(script[1..], avail - n)
  }

  /** The writer stops on an error other than EAGAIN with bytes still to write. */
  ghost predicate StopsFatally(script: seq<WriteResult>, avail: nat) {
    avail > 0 && script != [] &&
    if script[0].WriteError? then !script[0].again
    else StopsFatally(script[1..], avail - Min(script[0].n, Min(avail, PAGE_SIZE)))
  }

  /** Reading, from the last result backwards: each piece is delivered behind those before
      it, and the first error ends everything. */
  lemma {:induction false} DeliveredIs(good: seq<ReadResult>, data: seq<Byte>, again: bool, rest: seq<ReadResult>)
    requires forall r :: r in good ==> r.ReadBytes?
    ensures Delivered(good + [ReadBytes(data)]) == Delivered(good) + data
    ensures Delivered(good + [ReadError(again)] + rest) == Delivered(good)
    ensures !Fatal(good) && (Fatal(good + [ReadError(again)] + rest) <==> !again)
  {
    var one, bad := [ReadBytes(data)], [ReadError(again)] + rest;
    assert good + [ReadError(again)] + rest == good + bad;
    assert one[1..] == [] && data + [] == data;
    AfterGood(good, one);
    AfterGood(good, bad);
    AfterGood(good, []);
    assert good + [] == good && Delivered(good) + [] == Delivered(good);
  }

  lemma {:induction false} AfterGood(good: seq<ReadResult>, more: seq<ReadResult>)
    requires forall r :: r in good ==> r.ReadBytes?
    ensures Delivered(good + more) == Delivered(good) + Delivered(more) && Fatal(good + more) == Fatal(more)
  {
    if good == [] {
      assert good + more == more && [] + Delivered(more) == Delivered(more);
    } else {
      assert good[0] in good && (good + more)[1..] == good[1..] + more;
      AfterGood(good[1..], more);
      AppendAssoc([], good[0].data, Delivered(good[1..]), Delivered(more));
    }
  }

  /** Writing: each write takes what it can of a page of what is left, and the first error
      ends everything. */
  lemma {:induction false} AcceptedIs(good: seq<WriteResult>, avail: nat, n: nat, again: bool, rest: seq<WriteResult>)
    requires forall r :: r in good ==> r.Wrote?
    ensures var a := Accepted(good, avail);
      && Accepted(good + [Wrote(n)], avail) == a + Min(n, Min(avail - a, PAGE_SIZE))
      && Accepted(good + [WriteError(again)] + rest, avail) == a
      && !StopsFatally(good, avail) && (StopsFatally(good + [WriteError(again)] + rest, avail) <==> a < avail && !again)
  {
    if good == [] {
      assert [] + [Wrote(n)] == [Wrote(n)] && [Wrote(n)][1..] == [];
      assert ([] + [WriteError(again)] + rest)[0] == WriteError(again);
    } else if avail > 0 {
      AcceptedIs(good[1..], avail - Min(good[0].n, Min(avail, PAGE_SIZE)), n, again, rest);
      assert (good + [Wrote(n)])[1..] == good[1..] + [Wrote(n)];
      assert (good + [WriteError(again)] + rest)[1..] == good[1..] + [WriteError(again)] + rest;
    }
  }

  lemma AcceptedStep(script: seq<WriteResult>, i: nat, avail: nat)
    requires i < |script| && script[i].Wrote? && avail > 0
    ensures var n := Min(script[i].n, Min(avail, PAGE_SIZE));
      && Accepted(script[i..], avail) == n + Accepted(script[i + 1..], avail - n)
      && StopsFatally(script[i..], avail) == StopsFatally(script[i + 1..], avail - n)
  {
    assert script[i..][1..] == script[i + 1..];
  }

  lemma AcceptedEnd(script: seq<WriteResult>, i: nat, avail: nat)
    requires i <= |script| && (avail == 0 || i == |script| || script[i].WriteError?)
    ensures Accepted(script[i..], avail) == 0
    ensures StopsFatally(script[i..], avail) <==> avail > 0 && i < |script| && !script[i].again
  {
  }

  /** struct bio. */
  class Bio {
    var bsize: nat
    var pno: int
    var pages: seq<BioPage>
    ghost var repr: set<object>

    ghost predicate Pages()
      reads this, repr
    {
      && this in repr
      && (forall p :: p in pages ==> p in repr && p.page in repr && p.Valid() && p.end > 0)
      && Apart(pages)
    }

    /** Every page is non-empty and starts at 0, bsize is the length of the content,
        and pno, which reads never lower, is at least the number of pages. */
    ghost predicate Valid()
      reads this, repr
    {
      Pages() && bsize == |Flat(pages)| && pno >= |pages|
    }

    ghost function Contents(): seq<Byte>
      requires Pages()
      reads this, repr
    {
      Flat(pages)
    }

    constructor ()
      ensures Valid() && Contents() == [] && fresh(repr)
    {
      bsize, pno, pages := 0, 0, [];
      repr := {this};
    }

    /** bio_copy: the first sz bytes, or all of them. */
    method Copy(sz: nat) returns (out: seq<Byte>)
      requires Valid()
      ensures out == Contents()[..Min(sz, |Contents()|)]
    {
      ghost var all := Contents();
      out := [];
      var i := 0;
      assert pages[0..] == pages;
      while i < |pages|
        invariant 0 <= i <= |pages|
        invariant |out| <= sz && all == out + Flat(pages[i..])
      {
        assert pages[i..][1..] == pages[i + 1..];
        var chunk := pages[i].Copy(sz - |out|);
        CopyStep(all, out, pages[i].Data(), Flat(pages[i + 1..]), sz);
        out := out + chunk;
        if sz == |out| {
          return;
        }
        i := i + 1;
      }
      assert Flat(pages[i..]) == [];
    }

    /** One turn of bio_read's loop: takes from the first page, drops it when empty. */
    method ReadFirst(sz: nat) returns (out: seq<Byte>)
      requires Pages() && pages != [] && sz > 0
      modifies `pages, pages[0], pages[0].page
      ensures Pages() && repr == old(repr)
      ensures var n := |out|;
        0 < n <= sz && n <= |old(Contents())| && out == old(Contents())[..n] && Contents() == old(Contents())[n..]
      ensures |pages| <= old(|pages|)
    {
      hide Flat, Apart;
      TailPages(pages);
      FlatFirst(pages);
      var bp := pages[0];
      ghost var data, rest := bp.Data(), Flat(pages[1..]);
      out := bp.Read(sz);
      assert Flat(pages[1..]) == rest;
      FlatFirst(pages);
      TakeFirst(data, rest, |out|);
      if bp.end == bp.start {
        assert bp.Data() + rest == rest;
        pages := pages[1..];
      }
    }

    /** bio_read: takes the first sz bytes, or all of them. */
    method Read(sz: nat) returns (out: seq<Byte>)
      requires Valid()
      modifies repr
      ensures Valid() && repr == old(repr)
      ensures var n := Min(sz, |old(Contents())|); out == old(Contents())[..n] && Contents() == old(Contents())[n..]
    {
      ghost var all := Contents();
      out := [];
      while pages != [] && |out| < sz
        invariant Pages() && repr == old(repr)
        invariant |pages| <= old(|pages|) && pno == old(pno) && bsize == old(bsize)
        invariant |out| <= |all| && |out| <= sz && out == all[..|out|] && Contents() == all[|out|..]
        decreases sz - |out|
      {
        ghost var k := |out|;
        var chunk := ReadFirst(sz - |out|);
        SliceStep(all, k, |chunk|);
        out := out + chunk;
      }
      bsize := bsize - |out|;
    }

    /** is_time_to_expand and bio_expand_one_page: the last page gets room. */
    method MakeRoom()
      requires Pages()
      modifies `pages, `pno, `repr
      ensures repr >= old(repr) && fresh(repr - old(repr)) && this in repr
      ensures forall p :: p in pages ==> p in repr && p.page in repr
      ensures |pages| > 0 && Apart(pages) && pages[|pages| - 1].end < PAGE_SIZE && pno - |pages| == old(pno - |pages|)
      ensures (forall p :: p in pages ==> p.Valid()) && forall p :: p in pages[..|pages| - 1] ==> p.end > 0
      ensures Flat(pages) == old(Contents())
    {
      hide Flat, Apart;
      if pages == [] || pages[|pages| - 1].end - pages[|pages| - 1].start == PAGE_SIZE {
        ghost var before := Flat(pages);
        var bp := new BioPage();
        assert Flat(pages) == before;
        NewPage(pages, bp);
        pno := pno + 1;
        pages := pages + [bp];
        repr := repr + {bp, bp.page};
        assert pages[..|pages| - 1] == old(pages);
      } else {
        assert pages[|pages| - 1] in pages;
        FrontIn(pages);
      }
    }

    /** One turn of bio_write's loop. */
    method WriteSome(buff: seq<Byte>) returns (n: nat)
      requires Pages() && buff != []
      modifies repr
      ensures Pages() && 0 < n <= |buff| && Contents() == old(Contents()) + buff[..n]
      ensures pno - |pages| == old(pno - |pages|) && bsize == old(bsize)
      ensures repr >= old(repr) && fresh(repr - old(repr))
    {
      hide Flat, Apart;
      MakeRoom();
      n := AppendTo(pages, buff);
    }

    /** bio_write: appends all of buff. */
    method Write(buff: seq<Byte>) returns (nbytes: nat)
      requires Valid()
      modifies repr
      ensures Valid() && nbytes == |buff| && Contents() == old(Contents()) + buff
      ensures repr >= old(repr) && fresh(repr - old(repr))
    {
      hide Flat, Apart;
      ghost var all := Contents();
      nbytes := 0;
      assert all + buff[..0] == all;
      while nbytes < |buff|
        invariant Pages() && pno - |pages| == old(pno - |pages|) && bsize == old(bsize)
        invariant repr >= old(repr) && fresh(repr - old(repr))
        invariant 0 <= nbytes <= |buff| && Contents() == all + buff[..nbytes]
      {
        var n := WriteSome(buff[nbytes..]);
        AppendStep(all, buff, nbytes, n);
        nbytes := nbytes + n;
      }
      assert buff[..nbytes] == buff;
      bsize := bsize + nbytes;
    }

    /** bio_prefetch: appends what the reader delivers, at most a page at a time,
        until it reports an error; a script that runs out stands for EAGAIN. */
    method Prefetch(script: seq<ReadResult>) returns (rc: int)
      requires Valid() && forall r :: r in script && r.ReadBytes? ==> |r.data| <= PAGE_SIZE
      modifies repr
      ensures Valid() && Contents() == old(Contents()) + Delivered(script)
      ensures rc == if Delivered(script) == [] && Fatal(script) then -1 else |Delivered(script)|
      ensures repr >= old(repr) && fresh(repr - old(repr))
    {
      hide Flat, Apart;
      var sum, i := 0, 0;
      ghost var got: seq<Byte> := [];
      assert script[0..] == script && Contents() + got == Contents();
      while i < |script| && script[i].ReadBytes?
        invariant Valid() && 0 <= i <= |script|
        invariant repr >= old(repr) && fresh(repr - old(repr))
        invariant sum == |got| && Contents() == old(Contents()) + got
        invariant Delivered(script) == got + Delivered(script[i..]) && Fatal(script) == Fatal(script[i..])
      {
        assert script[i..][1..] == script[i + 1..];
        var nbytes := Write(script[i].data);
        AppendAssoc(old(Contents()), got, script[i].data, Delivered(script[i + 1..]));
        got := got + script[i].data;
        sum := sum + nbytes;
        i := i + 1;
      }
      assert Delivered(script[i..]) == [];
      assert got + [] == got;
      rc := if i < |script| && !script[i].again && sum == 0 then -1 else sum;
    }

    /** One turn of bio_flush's loop: the writer takes n bytes of the page-sized piece
        it is offered, or all of it. */
    method FlushSome(n: nat) returns (moved: seq<Byte>)
      requires Valid()
      modifies repr
      ensures Valid() && repr == old(repr)
      ensures var k := Min(n, Min(|old(Contents())|, PAGE_SIZE));
        moved == old(Contents())[..k] && Contents() == old(Contents())[k..]
    {
      hide Flat, Apart;
      var page := Copy(PAGE_SIZE);
      var nbytes := Min(n, |page|);
      var gone := Read(nbytes);
      moved := page[..nbytes];
      assert moved == gone;
    }

    /** bio_flush: offers the first page-sized piece to the writer until nothing is
        left or the writer reports an error; a script that runs out stands for EAGAIN.
        `written` is what the writer was given and took. */
    method Flush(script: seq<WriteResult>) returns (rc: int, written: seq<Byte>)
      requires Valid()
      modifies repr
      ensures Valid() && repr == old(repr)
      ensures var n := Accepted(script, |old(Contents())|);
        && written == old(Contents())[..n] && Contents() == old(Contents())[n..]
        && rc == if n == 0 && StopsFatally(script, |old(Contents())|) then -1 else n
    {
      hide Flat, Apart, Accepted, StopsFatally;
      ghost var all := Contents();
      var sum, i := 0, 0;
      written := [];
      EmptyPages();
      assert script[0..] == script;
      while pages != [] && i < |script| && script[i].Wrote?
        invariant Valid() && repr == old(repr) && 0 <= i <= |script|
        invariant pages == [] <==> Contents() == []
        invariant sum == |written| <= |all| && written == all[..sum] && Contents() == all[sum..]
        invariant Accepted(script, |all|) == sum + Accepted(script[i..], |all| - sum)
        invariant StopsFatally(script, |all|) == StopsFatally(script[i..], |all| - sum)
        decreases |script| - i
      {
        AcceptedStep(script, i, |all| - sum);
        var moved := FlushSome(script[i].n);
        SliceStep(all, sum, |moved|);
        EmptyPages();
        written := written + moved;
        sum := sum + |moved|;
        i := i + 1;
      }
      AcceptedEnd(script, i, |all| - sum);
      rc := if pages != [] && i < |script| && !script[i].again && sum == 0 then -1 else sum;
    }

    lemma EmptyPages()
      requires Pages()
      ensures pages == [] <==> Contents() == []
    {
      if pages != [] {
        assert pages[0] in pages && |pages[0].Data()| > 0;
      }
    }
  }

  /** bio_page_write on the last of a list of pages. */
  method AppendTo(pages: seq<BioPage>, buff: seq<Byte>) returns (n: nat)
    requires |pages| > 0 && (forall p :: p in pages ==> p.Valid()) && Apart(pages)
    requires (forall p :: p in pages[..|pages| - 1] ==> p.end > 0) && pages[|pages| - 1].end < PAGE_SIZE && buff != []
    modifies pages[|pages| - 1], pages[|pages| - 1].page
    ensures forall p :: p in pages ==> p.Valid() && p.end > 0
    ensures 0 < n <= |buff| && Flat(pages) == old(Flat(pages)) + buff[..n]
  {
    var bp := pages[|pages| - 1];
    ghost var front := pages[..|pages| - 1];
    assert pages == front + [bp];
    FlatConcat(front, [bp]);
    ghost var a, b := Flat(front), bp.Data();
    assert Flat([bp]) == b;
    FrontApart(front, bp);
    n := bp.Write(buff);
    assert Flat(front) == a;
    forall p | p in pages ensures p.Valid() && p.end > 0 {
      assert p == bp || p in front;
    }
    FlatConcat(front, [bp]);
    assert Flat([bp]) == b + buff[..n];
  }

  lemma FrontApart(front: seq<BioPage>, bp: BioPage)
    requires Apart(front + [bp])
    ensures forall p :: p in front ==> p != bp && p.page != bp.page
  {
    forall p | p in front ensures p != bp && p.page != bp.page {
      var i :| 0 <= i < |front| && front[i] == p;
      assert (front + [bp])[i] == p && (front + [bp])[|front|] == bp;
    }
  }

  lemma AppendAssoc(a: seq<Byte>, b: seq<Byte>, c: seq<Byte>, d: seq<Byte>)
    ensures (a + b) + c == a + (b + c) && b + (c + d) == (b + c) + d
  {
  }
}
