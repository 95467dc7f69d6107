/**
 * `whsutils::MemoryBuffer`: a FIFO byte buffer made of fixed-size pages.
 * Writes fill the last page and append fresh pages; reads drain pages from
 * the front and then drop the drained pages at the head of the pool.
 */
module MemoryBuffers {
  import opened Base

  /** The size of every page (`_pageSize`). */
  const PageSize: nat := 512

  /**
   * One `_Storage` page: `data` is what was written into it so far (from
   * `_ptr` to `_end`), `begin` the read offset (`_begin - _ptr`).
   */
  datatype Page = Page(data: seq<char>, begin: nat)

  /** The pointer order every page keeps: `_ptr <= _begin <= _end <= _ptr + _pageSize`. */
  type ValidPage = p: Page | p.begin <= |p.data| <= PageSize witness Page([], 0)

  /** The bytes of a page still to be read (`_begin` up to `_end`). */
  function Unread(p: ValidPage): seq<char>
  {
    p.data[p.begin..]
  }

  /** `_Storage::remainSize`: free room at the end of the page. */
  function Room(p: ValidPage): nat
  {
    PageSize - |p.data|
  }

  /** Everything a pool holds, front page first. */
  function Content(pool: seq<ValidPage>): seq<char>
  {
    if pool == [] then [] else Unread(pool[0]) + Content(pool[1..])
  }

  /** The buffer: its pool, `_stored` and `_gcount`. */
  datatype Buffer = Buffer(pool: seq<ValidPage>, stored: nat, gcount: nat)

  /** The check the source runs in debug builds: `_stored` is the pages' total. */
  predicate Valid(b: Buffer)
  {
    b.stored == |Content(b.pool)|
  }

  /** The buffer the constructor and `clear` leave. */
  function Empty(): (b: Buffer)
    ensures Valid(b) && Content(b.pool) == [] && b.gcount == 0
  {
    Buffer([], 0, 0)
  }

  /** `_Storage::write`: copies as much as fits into the page. */
  function PageWrite(p: ValidPage, x: seq<char>): (r: (ValidPage, nat))
    ensures r.1 <= |x| && r.1 <= Room(p)
    ensures r.1 == |x| || r.1 == Room(p)
    ensures r.0.begin == p.begin && r.0.data == p.data + x[..r.1]
    ensures Unread(r.0) == Unread(p) + x[..r.1]
  {
    var w := if |x| < Room(p) then |x| else Room(p);
    (Page(p.data + x[..w], p.begin), w)
  }

  lemma ContentCons(p: ValidPage, rest: seq<ValidPage>)
    ensures Content([p] + rest) == Unread(p) + Content(rest)
  {
    assert ([p] + rest)[1..] == rest;
  }

  /**
   * The size of the last chunk a write of `n` bytes copies when the page
   * it starts on has `room` bytes free: all of them if they fit, otherwise
   * what is left for the last fresh page (a full page when the rest is a
   * whole number of pages).
   */
  function LastChunk(room: nat, n: nat): nat
  {
    if n <= room then n else (n - room - 1) % PageSize + 1
  }

  /** Writing a full page first leaves the last chunk as it was. */
  lemma LastChunkAfterPage(n: nat)
    requires n > PageSize
    ensures LastChunk(PageSize, n - PageSize) == LastChunk(PageSize, n)
  {
    var m := n - PageSize - 1;
    if n - PageSize > PageSize {
      assert (m - PageSize) % PageSize == m % PageSize;
    }
  }

  /**
   * The `do { … } while (remainSize > 0)` loop: fresh pages holding `x`,
   * at least one even when `x` is empty, and the size of the last chunk.
   */
  function FreshPages(x: seq<char>): (r: (seq<ValidPage>, nat))
    ensures |r.0| >= 1
    ensures Content(r.0) == x
    ensures r.1 <= PageSize && r.1 <= |x|
    ensures |x| <= PageSize ==> r.1 == |x| && |r.0| == 1
    ensures r.1 == LastChunk(PageSize, |x|)
    decreases |x|
  {
    var pw := PageWrite(Page([], 0), x);
    if |x| - pw.1 > 0 then
      var rest := FreshPages(x[pw.1..]);
      LastChunkAfterPage(|x|);
      ContentCons(pw.0, rest.0);
      assert x == x[..pw.1] + x[pw.1..];
      ([pw.0] + rest.0, rest.1)
    else
      ContentCons(pw.0, []);
      assert x[..pw.1] == x;
      ([pw.0], pw.1)
  }

  lemma {:induction false} ContentAppend(a: seq<ValidPage>, b: seq<ValidPage>)
    ensures Content(a + b) == Content(a) + Content(b)
  {
    if a != [] {
      ContentAppend(a[1..], b);
      assert (a + b)[1..] == a[1..] + b;
    } else {
      assert a + b == b;
    }
  }

  /** Replacing the last page by its written-to copy appends the written bytes. */
  lemma LastPageWritten(front: seq<ValidPage>, last: ValidPage, tail: ValidPage, added: seq<char>)
    requires Unread(tail) == Unread(last) + added
    ensures Content(front + [tail]) == Content(front + [last]) + added
  {
    ContentSingle(last);
    ContentSingle(tail);
    ContentAppend(front, [last]);
    ContentAppend(front, [tail]);
    var c := Content(front);
    assert Content(front + [tail]) == c + (Unread(last) + added);
    assert Content(front + [last]) == c + Unread(last);
  }

  lemma ContentSingle(p: ValidPage)
    ensures Content([p]) == Unread(p)
  {
    assert [p][1..] == [];
  }

  /**
   * `MemoryBuffer::write`: appends `x` and returns the size of the last
   * chunk copied (the callers ignore it).
   */
  function Write(b: Buffer, x: seq<char>): (r: (Buffer, nat))
    requires Valid(b)
    ensures Valid(r.0)
    ensures Content(r.0.pool) == Content(b.pool) + x
    ensures r.0.stored == b.stored + |x| && r.0.gcount == b.gcount
    ensures |r.0.pool| >= 1 && r.1 <= |x|
  {
    if |b.pool| == 0 then
      var np := FreshPages(x);
      (Buffer(np.0, b.stored + |x|, b.gcount), np.1)
    else
      var wt := WriteTail(b.pool, x);
      (Buffer(wt.0, b.stored + |x|, b.gcount), wt.1)
  }

  /**
   * The count `write` returns is the last chunk's size: the last page's
   * free room decides where the chunks break, a whole fresh page when the
   * pool is empty.
   */
  lemma WriteCount(b: Buffer, x: seq<char>)
    requires Valid(b)
    ensures Write(b, x).1 == LastChunk(if |b.pool| == 0 then PageSize else Room(b.pool[|b.pool| - 1]), |x|)
  {
  }

  /** The last page took `x[..w]` and fresh pages hold the rest: the pool now ends with `x`. */
  lemma WriteTailSpill(pool: seq<ValidPage>, x: seq<char>, tail: ValidPage, w: nat, pages: seq<ValidPage>)
    requires |pool| > 0 && w <= |x|
    requires Unread(tail) == Unread(pool[|pool| - 1]) + x[..w]
    requires Content(pages) == x[w..]
    ensures Content(pool[..|pool| - 1] + [tail] + pages) == Content(pool) + x
  {
    var front := pool[..|pool| - 1];
    SplitLast(pool);
    LastPageWritten(front, pool[|pool| - 1], tail, x[..w]);
    ContentAppend(front + [tail], pages);
    AppendSplit(Content(pool), x, w);
  }

  /** A sequence is its front followed by its last element. */
  lemma SplitLast<T>(s: seq<T>)
    requires |s| > 0
    ensures s[..|s| - 1] + [s[|s| - 1]] == s
  {
  }

  lemma AppendSplit(c: seq<char>, x: seq<char>, w: nat)
    requires w <= |x|
    ensures (c + x[..w]) + x[w..] == c + x
  {
    assert x[..w] + x[w..] == x;
  }

  /** The last page took all of `x`. */
  lemma WriteTailFits(pool: seq<ValidPage>, x: seq<char>, tail: ValidPage)
    requires |pool| > 0
    requires Unread(tail) == Unread(pool[|pool| - 1]) + x
    ensures Content(pool[..|pool| - 1] + [tail]) == Content(pool) + x
  {
    SplitLast(pool);
    LastPageWritten(pool[..|pool| - 1], pool[|pool| - 1], tail, x);
  }

  /** The non-empty-pool branch of `write`: the last page first, then fresh pages. */
  function WriteTail(pool: seq<ValidPage>, x: seq<char>): (r: (seq<ValidPage>, nat))
    requires |pool| > 0
    ensures |r.0| >= |pool|
    ensures Content(r.0) == Content(pool) + x
    ensures r.1 <= |x|
    ensures r.1 == LastChunk(Room(pool[|pool| - 1]), |x|)
  {
    var pw := PageWrite(pool[|pool| - 1], x);
    if |x| - pw.1 > 0 then
      var np := FreshPages(x[pw.1..]);
      WriteTailSpill(pool, x, pw.0, pw.1, np.0);
      (pool[..|pool| - 1] + [pw.0] + np.0, np.1)
    else
      assert x[..pw.1] == x;
      WriteTailFits(pool, x, pw.0);
      (pool[..|pool| - 1] + [pw.0], pw.1)
  }

  /** `_Storage::read`: takes up to `size` unread bytes off the page. */
  function PageRead(p: ValidPage, size: nat): (r: (ValidPage, seq<char>))
    ensures r.0.data == p.data
    ensures |r.1| == if size < |Unread(p)| then size else |Unread(p)|
    ensures Unread(p) == r.1 + Unread(r.0)
  {
    var n := if size < |Unread(p)| then size else |Unread(p)|;
    (Page(p.data, p.begin + n), p.data[p.begin..p.begin + n])
  }

  /** A read page in front of the rest of the pool: its bytes, then the rest. */
  lemma ReadStep(pool: seq<ValidPage>, p: ValidPage, out: seq<char>, rest: seq<ValidPage>, more: seq<char>)
    requires pool != []
    requires Unread(pool[0]) == out + Unread(p)
    requires Content(pool[1..]) == more + Content(rest)
    requires |Unread(p)| == 0 || more == []
    ensures Content(pool) == Unread(pool[0]) + Content(pool[1..])
    ensures Content(pool) == (out + more) + Content([p] + rest)
  {
    ContentCons(p, rest);
    SwapEmpty(out, Unread(p), more, Content(rest));
  }

  /** Moving a chunk past an empty one. */
  lemma SwapEmpty(a: seq<char>, u: seq<char>, m: seq<char>, c: seq<char>)
    requires |u| == 0 || m == []
    ensures (a + u) + (m + c) == (a + m) + (u + c)
  {
    if |u| == 0 {
      assert u == [];
    }
  }

  /** The read loop: drains pages in order until `size` bytes were taken. */
  function ReadPages(pool: seq<ValidPage>, size: nat): (r: (seq<ValidPage>, seq<char>))
    ensures |r.0| == |pool|
    ensures |r.1| == if size < |Content(pool)| then size else |Content(pool)|
    ensures Content(pool) == r.1 + Content(r.0)
  {
    if pool == [] then ([], [])
    else
      var pr := PageRead(pool[0], size);
      var rest := if size - |pr.1| == 0 then (pool[1..], []) else ReadPages(pool[1..], size - |pr.1|);
      ReadStep(pool, pr.0, pr.1, rest.0, rest.1);
      ReadCount(size, |Unread(pool[0])|, |Content(pool[1..])|, |pr.1|, |rest.1|);
      ([pr.0] + rest.0, pr.1 + rest.1)
  }

  /** The count a read takes off one page and then off the rest adds up to one capped count. */
  lemma ReadCount(size: nat, a: nat, b: nat, o: nat, m: nat)
    requires o == if size < a then size else a
    requires size - o == 0 ==> m == 0
    requires size - o > 0 ==> m == if size - o < b then size - o else b
    ensures o + m == if size < a + b then size else a + b
  {
  }

  /** The trailing `do { … } while` loop: drops drained pages at the head. */
  function DropDrained(pool: seq<ValidPage>): (r: seq<ValidPage>)
    ensures Content(r) == Content(pool)
    ensures r == [] || |Unread(r[0])| > 0
    ensures |r| <= |pool|
  {
    if pool == [] then []
    else if |Unread(pool[0])| == 0 then
      assert Content(pool) == Content(pool[1..]);
      DropDrained(pool[1..])
    else pool
  }

  /**
   * `MemoryBuffer::read`: takes up to `size` bytes from the front, records
   * the count in `gcount`, and returns `size` itself (not the count). The
   * source dereferences the pool's front unconditionally, so the pool must
   * not be empty.
   */
  function Read(b: Buffer, size: nat): (r: (Buffer, seq<char>, nat))
    requires Valid(b) && |b.pool| > 0
    ensures Valid(r.0)
    ensures |r.1| == if size < b.stored then size else b.stored
    ensures r.1 == Content(b.pool)[..|r.1|]
    ensures Content(r.0.pool) == Content(b.pool)[|r.1|..]
    ensures r.0.gcount == |r.1| && r.0.stored == b.stored - |r.1|
    ensures r.2 == size
    ensures r.0.pool == [] || |Unread(r.0.pool[0])| > 0
  {
    var rp := ReadPages(b.pool, size);
    var kept := DropDrained(rp.0);
    assert Content(b.pool) == rp.1 + Content(kept);
    (Buffer(kept, b.stored - |rp.1|, |rp.1|), rp.1, size)
  }

  function Concat(chunks: seq<seq<char>>): seq<char>
  {
    if chunks == [] then [] else chunks[0] + Concat(chunks[1..])
  }

  /** Successive `write` calls, as the body callback issues them. */
  function WriteAll(b: Buffer, chunks: seq<seq<char>>): (r: Buffer)
    requires Valid(b)
    ensures Valid(r)
    ensures Content(r.pool) == Content(b.pool) + Concat(chunks)
    ensures r.stored == b.stored + |Concat(chunks)|
    ensures chunks != [] || |b.pool| > 0 ==> |r.pool| > 0
    decreases |chunks|
  {
    if chunks == [] then b
    else
      var r := WriteAll(Write(b, chunks[0]).0, chunks[1..]);
      assert Content(b.pool) + chunks[0] + Concat(chunks[1..]) == Content(b.pool) + Concat(chunks);
      r
  }

  /**
   * What the parser relies on: after the body chunks were written, reading
   * back exactly the stored count yields the bytes in order and `gcount`
   * equals that count; the buffer is left empty.
   */
  lemma ReadAllAfterWrites(chunks: seq<seq<char>>)
    requires |chunks| > 0
    ensures var b := WriteAll(Empty(), chunks);
      && |b.pool| > 0
      && var r := Read(b, b.stored);
      && r.1 == Concat(chunks) && r.0.gcount == |Concat(chunks)|
      && Content(r.0.pool) == [] && r.0.stored == 0
  {
  }

  /** Reads split anywhere return the same bytes as one read: the buffer is a FIFO. */
  lemma ReadTwice(b: Buffer, m: nat, n: nat)
    requires Valid(b) && |b.pool| > 0
    requires m + n <= b.stored
    requires m < b.stored
    ensures var r1 := Read(b, m);
      && |r1.0.pool| > 0
      && var r2 := Read(r1.0, n);
      && r1.1 + r2.1 == Content(b.pool)[..m + n]
  {
    var c := Content(b.pool);
    var r1 := Read(b, m);
    assert |Content(r1.0.pool)| > 0;
    var r2 := Read(r1.0, n);
    PrefixThenPrefix(c, m, n);
  }

  lemma PrefixThenPrefix(c: seq<char>, m: nat, n: nat)
    requires m + n <= |c|
    ensures c[..m] + c[m..][..n] == c[..m + n]
  {
  }
}
