/**
 * The outgoing send-buffer chain of a peer connection (`chained_buffer`).
 *
 * The chain is a list of caller-supplied buffers. Each buffer has an active
 * region (`start`, `used_size`) holding bytes still to send, and may have
 * unused space after it. The bytes still to send are the active regions in
 * chain order; `m_bytes` counts them and `m_capacity` counts every byte of
 * every buffer. Raw pointers become offsets into a buffer's `data`, and a
 * buffer's identity (the pointer handed to its destructor) becomes a `Handle`.
 */
module ChainedBuffers {
  import opened Common

  /** Identity of an allocation (`buf`): the value its destructor receives. */
  type Handle = nat

  /** One buffer (`buffer_t`). `data` is the whole allocation, so its length
      is the buffer's `size`; `start` is the offset of the first byte to send
      (`start - buf`) and `used` is `used_size`. */
  datatype Buffer = Buffer(handle: Handle, data: seq<byte>, start: nat, used: nat)
  {
    /** The active region lies inside the allocation. */
    predicate WellFormed() {
      start + used <= |data|
    }

    /** The bytes of this buffer still to send. */
    function Active(): (r: seq<byte>)
      requires WellFormed()
      ensures |r| == used
    {
      data[start..start + used]
    }
  }

  /** A buffer as the chain holds it: its active region lies inside it. */
  type Link = b: Buffer | b.WellFormed() witness Buffer(0, [], 0, 0)

  /** One entry of an I/O vector (`asio::const_buffer`): `len` bytes of the
      buffer at position `index` of the chain, starting at offset `offset`. */
  datatype ConstBuffer = ConstBuffer(index: nat, offset: nat, len: nat)

  /** What `pop_front` leaves in the chain, and the buffers it released. */
  datatype PopResult = PopResult(remaining: seq<Link>, released: seq<Link>)

  /** Sum of `used_size` over the chain: the value `m_bytes` must have. */
  function SumUsed(vec: seq<Link>): nat {
    if vec == [] then 0 else vec[0].used + SumUsed(vec[1..])
  }

  /** Sum of `size` over the chain: the value `m_capacity` must have. */
  function SumSize(vec: seq<Link>): nat {
    if vec == [] then 0 else |vec[0].data| + SumSize(vec[1..])
  }

  /** The byte stream still to send: the active regions in chain order. */
  ghost function Pending(vec: seq<Link>): (r: seq<byte>)
    ensures |r| == SumUsed(vec)
  {
    if vec == [] then [] else vec[0].Active() + Pending(vec[1..])
  }

  /** The allocations owned by the chain, in chain order. */
  function Handles(vec: seq<Link>): seq<Handle> {
    if vec == [] then [] else [vec[0].handle] + Handles(vec[1..])
  }

  function Min(a: int, b: int): int { if a <= b then a else b }

  function Max0(a: int): nat { if a <= 0 then 0 else a }

  /** Total length of an I/O vector. */
  function SumLen(iov: seq<ConstBuffer>): nat {
    if iov == [] then 0 else iov[0].len + SumLen(iov[1..])
  }

  /** The bytes one I/O vector entry designates in the chain. */
  function Region(vec: seq<Link>, e: ConstBuffer): seq<byte> {
    if e.index < |vec| && e.offset + e.len <= |vec[e.index].data|
    then vec[e.index].data[e.offset..e.offset + e.len]
    else []
  }

  /** The bytes an I/O vector designates, in order: what a gathering write
      of it sends. */
  ghost function Gather(vec: seq<Link>, iov: seq<ConstBuffer>): seq<byte> {
    if iov == [] then [] else Region(vec, iov[0]) + Gather(vec, iov[1..])
  }

  /** The I/O vector `build_iovec` produces from position `i` of the chain
      on, with `toGo` bytes left to cover: whole active regions while they
      fit, then the first `toGo` bytes of the next one. */
  function IovecFrom(vec: seq<Link>, i: nat, toGo: int): seq<ConstBuffer>
    decreases |vec| - i
  {
    if toGo <= 0 || i >= |vec| then []
    else if vec[i].used > toGo then [ConstBuffer(i, vec[i].start, toGo)]
    else [ConstBuffer(i, vec[i].start, vec[i].used)] + IovecFrom(vec, i + 1, toGo - vec[i].used)
  }

  /** The effect of `pop_front(n)` on the list: a front buffer whose active
      region fits within the bytes still to pop is released and the rest is
      popped from the next one; a front buffer holding more is advanced. */
  function PopFrontSpec(vec: seq<Link>, n: int): PopResult
    decreases |vec|
  {
    if n <= 0 || vec == [] then PopResult(vec, [])
    else if vec[0].used > n then
      PopResult([vec[0].(start := vec[0].start + n, used := vec[0].used - n)] + vec[1..], [])
    else
      var r := PopFrontSpec(vec[1..], n - vec[0].used);
      PopResult(r.remaining, [vec[0]] + r.released)
  }

  /** The counters of a chain split in two add up. */
  lemma {:induction false} ChainConcat(a: seq<Link>, b: seq<Link>)
    ensures SumUsed(a + b) == SumUsed(a) + SumUsed(b)
    ensures SumSize(a + b) == SumSize(a) + SumSize(b)
    ensures Handles(a + b) == Handles(a) + Handles(b)
  {
    if a == [] {
      assert a + b == b;
    } else {
      var ab := a + b;
      assert ab[0] == a[0] && ab[1..] == a[1..] + b;
      ChainConcat(a[1..], b);
    }
  }

  /** The byte stream of a chain split in two is the two streams joined. */
  lemma {:induction false} PendingConcat(a: seq<Link>, b: seq<Link>)
    ensures Pending(a + b) == Pending(a) + Pending(b)
  {
    if a == [] {
      assert a + b == b;
    } else {
      var ab := a + b;
      assert ab[0] == a[0] && ab[1..] == a[1..] + b;
      PendingConcat(a[1..], b);
    }
  }

  /** Appending one buffer adds its counters and its active region. */
  lemma ChainSnoc(front: seq<Link>, b: Link)
    ensures SumUsed(front + [b]) == SumUsed(front) + b.used
    ensures SumSize(front + [b]) == SumSize(front) + |b.data|
    ensures Handles(front + [b]) == Handles(front) + [b.handle]
    ensures Pending(front + [b]) == Pending(front) + b.Active()
  {
    ChainConcat(front, [b]);
    PendingConcat(front, [b]);
    assert [b][1..] == [];
  }

  /** Dropping `n` elements from two sequences joined. */
  lemma DropConcat<T>(a: seq<T>, b: seq<T>, n: nat)
    requires n <= |a| + |b|
    ensures n <= |a| ==> (a + b)[n..] == a[n..] + b
    ensures n >= |a| ==> (a + b)[n..] == b[n - |a|..]
  {
  }

  /** `0 <= size() <= capacity()` holds of every chain. */
  lemma {:induction false} UsedWithinCapacity(vec: seq<Link>)
    ensures SumUsed(vec) <= SumSize(vec)
  {
    if vec != [] {
      UsedWithinCapacity(vec[1..]);
    }
  }

  /** Popping `n` bytes removes exactly the first `n` bytes of the stream and
      lowers `m_bytes` by exactly `n`. */
  lemma {:induction false} PopFrontDrains(vec: seq<Link>, n: int)
    requires n <= SumUsed(vec)
    ensures SumUsed(PopFrontSpec(vec, n).remaining) == SumUsed(vec) - Max0(n)
    ensures Pending(PopFrontSpec(vec, n).remaining) == Pending(vec)[Max0(n)..]
    decreases |vec|
  {
    if n <= 0 || vec == [] {
    } else {
      var b := vec[0];
      assert Pending(vec) == b.Active() + Pending(vec[1..]);
      if b.used > n {
        var b': Link := b.(start := b.start + n, used := b.used - n);
        var rest := [b'] + vec[1..];
        assert rest[1..] == vec[1..];
        assert b'.Active() == b.Active()[n..];
        DropConcat(b.Active(), Pending(vec[1..]), n);
      } else {
        PopFrontDrains(vec[1..], n - b.used);
        DropConcat(b.Active(), Pending(vec[1..]), n);
      }
    }
  }

  /** The buffers `pop_front` releases are a prefix of the chain, and the
      rest of the chain is kept, except that its first buffer may have had its
      start advanced by as much as its used size shrank. */
  lemma {:induction false} PopFrontReleasesPrefix(vec: seq<Link>, n: int, r: PopResult)
    requires r == PopFrontSpec(vec, n)
    ensures |r.released| <= |vec| && r.released == vec[..|r.released|]
    ensures |r.remaining| == |vec| - |r.released|
    ensures |r.remaining| > 0 ==> r.remaining[1..] == vec[|r.released| + 1..]
    ensures |r.remaining| > 0 ==>
              && r.remaining[0].handle == vec[|r.released|].handle
              && r.remaining[0].data == vec[|r.released|].data
              && r.remaining[0].start >= vec[|r.released|].start
              && r.remaining[0].start + r.remaining[0].used == vec[|r.released|].start + vec[|r.released|].used
    decreases |vec|
  {
    if n <= 0 || vec == [] {
    } else if vec[0].used > n {
      assert r.remaining[1..] == vec[1..];
    } else {
      var r' := PopFrontSpec(vec[1..], n - vec[0].used);
      PopFrontReleasesPrefix(vec[1..], n - vec[0].used, r');
      var k := |r'.released|;
      assert vec[1..][..k] == vec[1..k + 1];
      if |r'.remaining| > 0 {
        assert vec[1..][k + 1..] == vec[k + 2..];
      }
      assert [vec[0]] + r'.released == vec[..k + 1];
    }
  }


  /** Which buffers `pop_front` frees: each released buffer is reached
      with bytes still to pop and its active region fits within them, and the buffer
      after the released ones is kept exactly when it holds more than is
      left to pop; when nothing is left, the rest of the chain is kept as
      it was. */
  lemma {:induction false} PopFrontReleasesExactly(vec: seq<Link>, n: int, r: PopResult)
    requires r == PopFrontSpec(vec, n)
    ensures |r.released| <= |vec| && SumUsed(r.released) <= Max0(n)
    ensures forall j :: 0 <= j < |r.released| ==> SumUsed(vec[..j]) < n && vec[j].used <= n - SumUsed(vec[..j])
    ensures |r.released| < |vec| && SumUsed(r.released) < n ==>
              vec[|r.released|].used > n - SumUsed(r.released)
    ensures |r.released| < |vec| && (n <= 0 || SumUsed(r.released) == n) ==>
              r.remaining == vec[|r.released|..]
    decreases |vec|
  {
    if n <= 0 || vec == [] || vec[0].used > n {
      assert vec[0..] == vec;
    } else {
      var n' := n - vec[0].used;
      var r' := PopFrontSpec(vec[1..], n');
      PopFrontReleasesExactly(vec[1..], n', r');
      assert r.released == [vec[0]] + r'.released;
      assert r.released[1..] == r'.released;
      var k := |r'.released|;
      forall j | 0 <= j < |r.released|
        ensures SumUsed(vec[..j]) < n && vec[j].used <= n - SumUsed(vec[..j])
      {
        if j > 0 {
          assert vec[..j][1..] == vec[1..][..j - 1];
          assert vec[j] == vec[1..][j - 1];
        }
      }
      if k + 1 < |vec| {
        assert vec[k + 1] == vec[1..][k];
        assert vec[k + 1..] == vec[1..][k..];
      }
    }
  }

  /** Together, the released buffers and the rest account for every
      allocation and every byte of capacity the chain had. */
  lemma {:induction false} PopFrontAccounts(vec: seq<Link>, n: int)
    ensures Handles(vec) == Handles(PopFrontSpec(vec, n).released) + Handles(PopFrontSpec(vec, n).remaining)
    ensures SumSize(vec) == SumSize(PopFrontSpec(vec, n).released) + SumSize(PopFrontSpec(vec, n).remaining)
    decreases |vec|
  {
    if n <= 0 || vec == [] {
      assert Handles([]) == [];
    } else if vec[0].used > n {
      var rest := [vec[0].(start := vec[0].start + n, used := vec[0].used - n)] + vec[1..];
      assert rest[1..] == vec[1..];
    } else {
      PopFrontAccounts(vec[1..], n - vec[0].used);
      var r := PopFrontSpec(vec[1..], n - vec[0].used);
      assert ([vec[0]] + r.released)[1..] == r.released;
    }
  }

  /** The bytes held in the `n` bytes of space after the active region of a
      buffer. */
  function Appendix(b: Buffer, n: nat): seq<byte>
    requires b.start + b.used + n <= |b.data|
  {
    b.data[b.start + b.used..b.start + b.used + n]
  }

  /** The chain with its last buffer replaced by `b`. */
  function WithLast(vec: seq<Link>, b: Link): seq<Link>
    requires vec != []
  {
    vec[..|vec| - 1] + [b]
  }

  /** Replacing the last buffer by one with the same allocation keeps the
      allocations and the capacity, and changes only the tail of the byte
      stream. */
  lemma ReplaceLast(vec: seq<Link>, b: Link)
    requires vec != []
    requires b.handle == vec[|vec| - 1].handle && |b.data| == |vec[|vec| - 1].data|
    ensures Handles(WithLast(vec, b)) == Handles(vec)
    ensures SumSize(WithLast(vec, b)) == SumSize(vec)
    ensures SumUsed(WithLast(vec, b)) + vec[|vec| - 1].used == SumUsed(vec) + b.used
    ensures vec[|vec| - 1].used <= SumUsed(vec)
    ensures Pending(vec) == Pending(vec)[..SumUsed(vec) - vec[|vec| - 1].used] + vec[|vec| - 1].Active()
    ensures Pending(WithLast(vec, b)) == Pending(vec)[..SumUsed(vec) - vec[|vec| - 1].used] + b.Active()
  {
    var front := vec[..|vec| - 1];
    assert vec == front + [vec[|vec| - 1]];
    ChainSnoc(front, vec[|vec| - 1]);
    ChainSnoc(front, b);
  }

  /** Growing the last buffer's active region by `n` bytes adds the `n`
      bytes after it to the bytes still to send, and keeps the
      allocations. */
  lemma GrowLast(vec: seq<Link>, n: nat)
    requires vec != []
    requires vec[|vec| - 1].start + vec[|vec| - 1].used + n <= |vec[|vec| - 1].data|
    ensures var last := vec[|vec| - 1];
            var v := WithLast(vec, last.(used := last.used + n));
            && Handles(v) == Handles(vec) && SumSize(v) == SumSize(vec)
            && SumUsed(v) == SumUsed(vec) + n
            && Pending(v) == Pending(vec) + Appendix(last, n)
  {
    var last := vec[|vec| - 1];
    var b' := last.(used := last.used + n);
    assert b'.Active() == last.Active() + Appendix(last, n);
    ReplaceLast(vec, b');
  }

  /** The buffer with `src` copied over its bytes from `at` on, the other
      bytes as they were. */
  function CopyInto(b: Link, at: nat, src: seq<byte>): (r: Link)
    requires at + |src| <= |b.data|
    ensures r.handle == b.handle && r.start == b.start && r.used == b.used && |r.data| == |b.data|
    ensures r.data[..at] == b.data[..at] && r.data[at..at + |src|] == src
    ensures r.data[at + |src|..] == b.data[at + |src|..]
  {
    var d := b.data[..at] + src + b.data[at + |src|..];
    assert d[..at] == b.data[..at];
    assert d[at..at + |src|] == src;
    assert d[at + |src|..] == b.data[at + |src|..];
    b.(data := d)
  }

  /** Growing a buffer by `|src|` bytes and copying `src` into them extends
      its active region by exactly `src`. */
  lemma CopyActive(last: Link, src: seq<byte>)
    requires last.start + last.used + |src| <= |last.data|
    ensures CopyInto(last.(used := last.used + |src|), last.start + last.used, src).Active() == last.Active() + src
  {
    var at := last.start + last.used;
    var b' := CopyInto(last.(used := last.used + |src|), at, src);
    assert b'.data[last.start..at + |src|] == b'.data[last.start..at] + b'.data[at..at + |src|];
    assert b'.data[last.start..at] == b'.data[..at][last.start..];
    assert last.data[last.start..at] == last.data[..at][last.start..];
  }

  /** `append`'s effect on the chain: once the last buffer has grown by
      `|src|` bytes and `src` is copied into them, giving the chain `v`, the
      bytes still to send are extended by exactly `src`, and the
      allocations and the capacity are kept. */
  lemma AppendCopies(vec: seq<Link>, src: seq<byte>, v: seq<Link>)
    requires vec != [] && vec[|vec| - 1].start + vec[|vec| - 1].used + |src| <= |vec[|vec| - 1].data|
    requires v == WithLast(vec, CopyInto(vec[|vec| - 1].(used := vec[|vec| - 1].used + |src|),
                                         vec[|vec| - 1].start + vec[|vec| - 1].used, src))
    ensures Handles(v) == Handles(vec) && SumSize(v) == SumSize(vec)
    ensures SumUsed(v) == SumUsed(vec) + |src|
    ensures Pending(v) == Pending(vec) + src
  {
    var last := vec[|vec| - 1];
    var b := v[|v| - 1];
    assert b == CopyInto(last.(used := last.used + |src|), last.start + last.used, src);
    assert Handles(v) == Handles(vec) && SumSize(v) == SumSize(vec) && SumUsed(v) == SumUsed(vec) + |src| by {
      ReplaceLast(vec, b);
    }
    assert Pending(v) == Pending(vec) + src by {
      CopyActive(last, src);
      ReplaceLast(vec, b);
      var front := Pending(vec)[..SumUsed(vec) - last.used];
      assert Pending(v) == front + (last.Active() + src);
      assert Pending(vec) + src == (front + last.Active()) + src;
    }
  }

  /** Replacing the last buffer twice is replacing it once with the second
      buffer. */
  lemma WithLastTwice(vec: seq<Link>, b: Link, c: Link)
    requires vec != []
    ensures WithLast(vec, b)[|vec| - 1] == b
    ensures WithLast(WithLast(vec, b), c) == WithLast(vec, c)
  {
    assert WithLast(vec, b)[..|vec| - 1] == vec[..|vec| - 1];
  }

  /** Taking `n` elements from two sequences joined. */
  lemma TakeConcat<T>(a: seq<T>, b: seq<T>, n: nat)
    requires n <= |a| + |b|
    ensures n <= |a| ==> (a + b)[..n] == a[..n]
    ensures n >= |a| ==> (a + b)[..n] == a + b[..n - |a|]
  {
  }

  /** The I/O vector built from position `i` on is as long, in bytes, as
      the first `toGo` bytes of what the chain holds from `i` on, or all of
      them when it holds fewer. */
  lemma {:induction false} IovecLength(vec: seq<Link>, i: nat, toGo: int)
    requires i <= |vec|
    ensures SumLen(IovecFrom(vec, i, toGo)) == Min(Max0(toGo), SumUsed(vec[i..]))
    decreases |vec| - i
  {
    if toGo <= 0 || i >= |vec| {
    } else {
      assert vec[i..][0] == vec[i] && vec[i..][1..] == vec[i + 1..];
      var iov := IovecFrom(vec, i, toGo);
      if vec[i].used <= toGo {
        IovecLength(vec, i + 1, toGo - vec[i].used);
        assert iov[1..] == IovecFrom(vec, i + 1, toGo - vec[i].used);
      }
    }
  }

  /** The I/O vector built from position `i` on designates exactly the
      first bytes of what the chain holds from `i` on, as many as it is
      long. */
  lemma {:induction false} IovecCovers(vec: seq<Link>, i: nat, toGo: int)
    requires i <= |vec|
    ensures SumLen(IovecFrom(vec, i, toGo)) <= SumUsed(vec[i..])
    ensures Gather(vec, IovecFrom(vec, i, toGo)) == Pending(vec[i..])[..SumLen(IovecFrom(vec, i, toGo))]
    decreases |vec| - i
  {
    IovecLength(vec, i, toGo);
    if toGo <= 0 || i >= |vec| {
    } else {
      var b := vec[i];
      assert vec[i..][0] == b && vec[i..][1..] == vec[i + 1..];
      assert Pending(vec[i..]) == b.Active() + Pending(vec[i + 1..]);
      if b.used > toGo {
        IovecCoversCut(vec, i, toGo);
      } else {
        var iov := IovecFrom(vec, i, toGo);
        var rest := IovecFrom(vec, i + 1, toGo - b.used);
        IovecCovers(vec, i + 1, toGo - b.used);
        assert iov[1..] == rest;
        assert Region(vec, iov[0]) == b.Active();
        TakeConcat(b.Active(), Pending(vec[i + 1..]), b.used + SumLen(rest));
      }
    }
  }

  /** The last step of `IovecCovers`: the buffer at `i` holds more than is
      left to send, so a single entry covers a prefix of it. */
  lemma IovecCoversCut(vec: seq<Link>, i: nat, toGo: int)
    requires i < |vec| && 0 < toGo < vec[i].used
    requires Pending(vec[i..]) == vec[i].Active() + Pending(vec[i + 1..])
    ensures Gather(vec, IovecFrom(vec, i, toGo)) == Pending(vec[i..])[..toGo]
  {
    var b := vec[i];
    var iov := IovecFrom(vec, i, toGo);
    assert iov == [ConstBuffer(i, b.start, toGo)];
    assert iov[1..] == [];
    assert Region(vec, iov[0]) == b.data[b.start..b.start + toGo];
    assert b.Active()[..toGo] == b.data[b.start..b.start + toGo];
    TakeConcat(b.Active(), Pending(vec[i + 1..]), toGo);
  }

  /** Entry `j` of the I/O vector built from position `i` on belongs to
      buffer `i + j`, starts at its active region and covers at most all of
      it. */
  lemma {:induction false} IovecEntries(vec: seq<Link>, i: nat, toGo: int, iov: seq<ConstBuffer>)
    requires i <= |vec| && iov == IovecFrom(vec, i, toGo)
    ensures |iov| <= |vec| - i
    ensures forall j :: 0 <= j < |iov| ==>
              && iov[j].index == i + j < |vec|
              && iov[j].offset == vec[iov[j].index].start
              && iov[j].len <= vec[iov[j].index].used
    decreases |vec| - i
  {
    if toGo <= 0 || i >= |vec| || vec[i].used > toGo {
    } else {
      var rest := IovecFrom(vec, i + 1, toGo - vec[i].used);
      IovecEntries(vec, i + 1, toGo - vec[i].used, rest);
      assert iov == [iov[0]] + rest;
    }
  }

  /** Every entry but the last of the I/O vector built from position `i` on
      covers the whole active region of its buffer. */
  lemma {:induction false} IovecWhole(vec: seq<Link>, i: nat, toGo: int, iov: seq<ConstBuffer>)
    requires i <= |vec| && iov == IovecFrom(vec, i, toGo)
    ensures forall j :: 0 <= j < |iov| - 1 ==> iov[j].index < |vec| && iov[j].len == vec[iov[j].index].used
    decreases |vec| - i
  {
    if toGo <= 0 || i >= |vec| || vec[i].used > toGo {
    } else {
      var rest := IovecFrom(vec, i + 1, toGo - vec[i].used);
      IovecWhole(vec, i + 1, toGo - vec[i].used, rest);
      assert iov == [iov[0]] + rest;
    }
  }

  /** The I/O vector built from position `i` on ends before the chain does
      only once it covers `toGo` bytes, and its last entry is needed: the
      entries before it cover fewer than `toGo` bytes. */
  lemma {:induction false} IovecStops(vec: seq<Link>, i: nat, toGo: int, iov: seq<ConstBuffer>)
    requires i <= |vec| && iov == IovecFrom(vec, i, toGo)
    ensures |iov| < |vec| - i ==> SumLen(iov) == Max0(toGo)
    ensures 0 < |iov| ==> SumLen(iov) - iov[|iov| - 1].len < toGo
    decreases |vec| - i
  {
    if toGo <= 0 || i >= |vec| || vec[i].used > toGo {
    } else {
      var rest := IovecFrom(vec, i + 1, toGo - vec[i].used);
      IovecStops(vec, i + 1, toGo - vec[i].used, rest);
      assert iov[1..] == rest;
      if rest != [] {
        assert iov[|iov| - 1] == rest[|rest| - 1];
      }
    }
  }

  class ChainedBuffer {
    /** `m_vec`: the buffers, in send order. */
    var vec: seq<Link>
    /** `m_bytes`: the number of bytes still to send. */
    var bytes: int
    /** `m_capacity`: the total size of all buffers, unused space included. */
    var capacity: int
    /** Every allocation whose destructor has run, in the order it ran. */
    ghost var freed: seq<Handle>
    /** Every allocation ever handed to `append_buffer`, in the order given. */
    ghost var appended: seq<Handle>

    /** The counters agree with the list, and every allocation handed to the
        chain is either still in it or has been freed, once, after every
        allocation handed over before it. */
    ghost predicate Valid()
      reads this
    {
      && bytes == SumUsed(vec)
      && capacity == SumSize(vec)
      && freed + Handles(vec) == appended
    }

    /** The bytes still to send. */
    ghost function Contents(): seq<byte>
      reads this
      requires Valid()
    {
      Pending(vec)
    }

    constructor ()
      ensures Valid() && vec == [] && freed == [] && appended == []
      ensures Contents() == []
    {
      vec := [];
      bytes, capacity := 0, 0;
      freed, appended := [], [];
    }

    /** `empty()` */
    function Empty(): (r: bool)
      reads this
      requires Valid()
      ensures r <==> Contents() == []
      ensures r <==> Size() == 0
    {
      bytes == 0
    }

    /** `size()` */
    function Size(): (r: int)
      reads this
      requires Valid()
      ensures r == |Contents()|
      ensures 0 <= r <= Capacity()
    {
      UsedWithinCapacity(vec);
      bytes
    }

    /** `capacity()` */
    function Capacity(): (r: int)
      reads this
      requires Valid()
      ensures r == SumSize(vec)
      ensures |Contents()| <= r
    {
      UsedWithinCapacity(vec);
      capacity
    }

    /** `pop_front(bytes_to_pop)` */
    method PopFront(n: int)
      requires Valid()
      requires n <= bytes
      modifies this
      ensures Valid() && appended == old(appended)
      ensures vec == PopFrontSpec(old(vec), n).remaining
      ensures freed == old(freed) + Handles(PopFrontSpec(old(vec), n).released)
      ensures old(Contents()) == old(Contents())[..Max0(n)] + Contents()
      ensures bytes == old(bytes) - Max0(n)
      ensures capacity == old(capacity) - SumSize(PopFrontSpec(old(vec), n).released)
    {
      var v, used, cap, released := PopBuffers(vec, bytes, capacity, n);
      PopFrontEffect(freed, vec, n, v, released);
      vec, bytes, capacity := v, used, cap;
      // b.free(b.buf), for each buffer released
      freed := freed + Handles(released);
    }

    /** `append_buffer(buffer, size, used_size, destructor)`: the chain takes
        ownership of an allocation whose first `used` bytes are to be sent. */
    method AppendBuffer(buffer: Handle, data: seq<byte>, used: nat)
      requires Valid()
      requires used <= |data|
      modifies this
      ensures Valid()
      ensures vec == old(vec) + [Buffer(buffer, data, 0, used)] && freed == old(freed)
      ensures appended == old(appended) + [buffer]
      ensures Contents() == old(Contents()) + data[..used]
      ensures bytes == old(bytes) + used && capacity == old(capacity) + |data|
    {
      var b: Link := Buffer(buffer, data, 0, used);
      ChainSnoc(vec, b);
      assert freed + Handles(vec + [b]) == (freed + Handles(vec)) + [buffer];
      vec := vec + [b];
      appended := appended + [buffer];
      bytes := bytes + used;
      capacity := capacity + |data|;
    }

    /** `space_in_last_buffer()` */
    function SpaceInLastBuffer(): (r: int)
      reads this
      requires Valid()
      ensures vec == [] ==> r == 0
      ensures vec != [] ==> 0 <= r && vec[|vec| - 1].start + vec[|vec| - 1].used + r == |vec[|vec| - 1].data|
    {
      if vec == [] then 0
      else
        var b := vec[|vec| - 1];
        |b.data| - b.used - b.start
    }

    /** `allocate_appendix(size)`: claims `n` bytes of the space after the
        last buffer's active region and returns where they start in it, or
        nothing when there is no buffer or the space is too small. */
    method AllocateAppendix(n: nat) returns (insert: Option<nat>)
      requires Valid()
      modifies this
      ensures Valid() && freed == old(freed) && appended == old(appended) && capacity == old(capacity)
      ensures insert.None? <==>
                old(vec) == [] || old(vec)[|old(vec)| - 1].start + old(vec)[|old(vec)| - 1].used + n > |old(vec)[|old(vec)| - 1].data|
      ensures insert.None? <==> old(vec) == [] || n > old(SpaceInLastBuffer())
      ensures insert.None? ==> vec == old(vec) && bytes == old(bytes)
      ensures insert.Some? ==>
                var last := old(vec)[|old(vec)| - 1];
                && insert.value == last.start + last.used
                && vec == WithLast(old(vec), last.(used := last.used + n))
                && bytes == old(bytes) + n
                && Contents() == old(Contents()) + Appendix(last, n)
    {
      if vec == [] {
        return None;
      }
      var b := vec[|vec| - 1];
      var at := b.start + b.used;
      if at + n > |b.data| {
        return None;
      }
      GrowLast(vec, n);
      vec := WithLast(vec, b.(used := b.used + n));
      bytes := bytes + n;
      insert := Some(at);
    }

    /** `append(buf, size)`: copies `src` into the space after the last
        buffer's active region, or reports false and changes nothing when
        it does not fit. */
    method Append(src: seq<byte>) returns (ok: bool)
      requires Valid()
      modifies this
      ensures Valid() && freed == old(freed) && appended == old(appended) && capacity == old(capacity)
      ensures ok <==> old(vec) != [] && |src| <= old(SpaceInLastBuffer())
      ensures !ok ==> vec == old(vec) && bytes == old(bytes)
      ensures ok ==> Contents() == old(Contents()) + src && bytes == old(bytes) + |src|
      ensures ok ==>
                var last := old(vec)[|old(vec)| - 1];
                vec == WithLast(old(vec), CopyInto(last.(used := last.used + |src|), last.start + last.used, src))
    {
      ghost var vec0 := vec;
      var insert := AllocateAppendix(|src|);
      if insert == None {
        return false;
      }
      ghost var last := vec0[|vec0| - 1];
      WithLastTwice(vec0, last.(used := last.used + |src|), last);
      // memcpy(insert, buf, size)
      var b' := CopyInto(vec[|vec| - 1], insert.value, src);
      WithLastTwice(vec0, last.(used := last.used + |src|), b');
      AppendCopies(vec0, src, WithLast(vec0, b'));
      vec := WithLast(vec, b');
      ok := true;
    }

    /** `build_iovec(to_send)`: the I/O vector covering the first `toSend`
        bytes still to send (all of them when fewer are queued). The chain
        is not changed. */
    method BuildIovec(toSend: int) returns (iov: seq<ConstBuffer>)
      requires Valid()
      ensures iov == IovecFrom(vec, 0, toSend)
      ensures SumLen(iov) == Min(Max0(toSend), Size())
      ensures Gather(vec, iov) == Contents()[..SumLen(iov)]
    {
      iov := [];
      var toGo := toSend;
      var i := 0;
      while toGo > 0 && i < |vec|
        invariant 0 <= i <= |vec|
        invariant iov + IovecFrom(vec, i, toGo) == IovecFrom(vec, 0, toSend)
      {
        var b := vec[i];
        if b.used > toGo {
          iov := iov + [ConstBuffer(i, b.start, toGo)];
          break;
        }
        iov := iov + [ConstBuffer(i, b.start, b.used)];
        toGo := toGo - b.used;
        i := i + 1;
      }
      IovecLength(vec, 0, toSend);
      IovecCovers(vec, 0, toSend);
      assert vec[0..] == vec;
    }

    /** `~chained_buffer()`: runs the destructor of every buffer still in the
        chain. With what `pop_front` freed before, every allocation ever
        handed to the chain has then been freed exactly once, in the order
        the allocations were appended. */
    method Destroy()
      requires Valid()
      modifies this`freed
      ensures freed == old(freed) + Handles(vec)
      ensures freed == appended
    {
      var i := 0;
      while i < |vec|
        invariant 0 <= i <= |vec|
        invariant freed == old(freed) + Handles(vec[..i])
      {
        assert vec[..i + 1] == vec[..i] + [vec[i]];
        ChainSnoc(vec[..i], vec[i]);
        // i->free(i->buf)
        freed := freed + [vec[i].handle];
        i := i + 1;
      }
      assert vec[..i] == vec;
    }
  }

  /** The loop of `pop_front`, on the list and the counters `m_bytes` and
      `m_capacity`: releases each front buffer whose active region fits in
      what is left to pop, and advances the first one that holds more. */
  method PopBuffers(vec: seq<Link>, bytes: int, capacity: int, n: int)
      returns (v: seq<Link>, used: int, cap: int, ghost released: seq<Link>)
    requires bytes == SumUsed(vec) && capacity == SumSize(vec)
    ensures v == PopFrontSpec(vec, n).remaining && released == PopFrontSpec(vec, n).released
    ensures used == SumUsed(v) && cap == SumSize(v)
  {
    v, used, cap := vec, bytes, capacity;
    released := [];
    var toPop := n;
    while toPop > 0 && v != []
      invariant used == SumUsed(v) && cap == SumSize(v)
      invariant PopFrontSpec(vec, n).remaining == PopFrontSpec(v, toPop).remaining
      invariant PopFrontSpec(vec, n).released == released + PopFrontSpec(v, toPop).released
      decreases |v|
    {
      var b := v[0];
      if b.used > toPop {
        var rest := [b.(start := b.start + toPop, used := b.used - toPop)] + v[1..];
        PopAdvanceStep(v, toPop);
        v := rest;
        used := used - toPop;
        break;
      }
      PopReleaseStep(released, v, toPop);
      used := used - b.used;
      cap := cap - |b.data|;
      toPop := toPop - b.used;
      released := released + [b];
      v := v[1..];
    }
    assert released + [] == released;
  }

  /** What `pop_front(n)` leaves behind, given the freed log `freed` and the
      chain `vec` it starts from: the rest `v` of the chain and the buffers
      `released`. */
  lemma PopFrontEffect(freed: seq<Handle>, vec: seq<Link>, n: int, v: seq<Link>, released: seq<Link>)
    requires n <= SumUsed(vec)
    requires v == PopFrontSpec(vec, n).remaining && released == PopFrontSpec(vec, n).released
    ensures SumUsed(v) == SumUsed(vec) - Max0(n)
    ensures Pending(vec) == Pending(vec)[..Max0(n)] + Pending(v)
    ensures SumSize(v) == SumSize(vec) - SumSize(released)
    ensures (freed + Handles(released)) + Handles(v) == freed + Handles(vec)
  {
    PopFrontSplits(vec, n, v);
    PopFrontAccounts(vec, n);
  }

  /** The bytes still to send before `pop_front(n)` are the `n` bytes it
      drops followed by those still to send after it. */
  lemma PopFrontSplits(vec: seq<Link>, n: int, v: seq<Link>)
    requires n <= SumUsed(vec)
    requires v == PopFrontSpec(vec, n).remaining
    ensures SumUsed(v) == SumUsed(vec) - Max0(n)
    ensures Pending(vec) == Pending(vec)[..Max0(n)] + Pending(v)
  {
    PopFrontDrains(vec, n);
    SplitAt(Pending(vec), Pending(v), Max0(n));
  }


  /** A sequence is its first `k` elements followed by the rest. */
  lemma SplitAt<T>(s: seq<T>, rest: seq<T>, k: nat)
    requires k <= |s| && rest == s[k..]
    ensures s == s[..k] + rest
  {
  }

  /** One loop step of `pop_front` that releases the front buffer: the
      buffer moves from the front of the chain to the end of the released
      ones, and the rest of the work is popping the remainder from the rest. */
  lemma PopReleaseStep(released: seq<Link>, vec: seq<Link>, n: int)
    requires vec != [] && 0 < n && vec[0].used <= n
    ensures SumUsed(vec[1..]) == SumUsed(vec) - vec[0].used
    ensures SumSize(vec[1..]) == SumSize(vec) - |vec[0].data|
    ensures PopFrontSpec(vec, n).remaining == PopFrontSpec(vec[1..], n - vec[0].used).remaining
    ensures released + PopFrontSpec(vec, n).released
         == (released + [vec[0]]) + PopFrontSpec(vec[1..], n - vec[0].used).released
  {
  }

  /** The loop step of `pop_front` that advances the front buffer: the
      result is reached, with the counters and allocations accounted for. */
  lemma PopAdvanceStep(vec: seq<Link>, n: int)
    requires vec != [] && 0 < n < vec[0].used
    ensures var rest := [vec[0].(start := vec[0].start + n, used := vec[0].used - n)] + vec[1..];
      && PopFrontSpec(vec, n) == PopResult(rest, [])
      && SumUsed(rest) == SumUsed(vec) - n
      && SumSize(rest) == SumSize(vec)
      && Handles(rest) == Handles(vec)
  {
    var rest := [vec[0].(start := vec[0].start + n, used := vec[0].used - n)] + vec[1..];
    assert rest[1..] == vec[1..];
  }
}
