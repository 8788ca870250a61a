/** ss_gen_hash and ss_check_hash of encrypt.c: chunks with a length, ten bytes of an authentication code keyed with the
    chunk counter, and the payload, which the receiver unpacks in the buffer it read them into. */
module ChunkHash {
  import opened Bits
  import opened Buffers
  import opened Framing
  import opened GrowingBuffer
  import opened Macs

  const CLEN_BYTES: nat := 2
  const ONETIMEAUTH_BYTES: nat := 10
  const AUTH_BYTES: nat := 12

  /** htonl */
  function BigEndian(x: uint32): seq<byte> {
    [x / 0x100_0000 % 0x100, x / 0x1_0000 % 0x100, x / 0x100 % 0x100, x % 0x100]
  }

  /** The initial vector followed by the chunk counter. */
  function Key(iv: seq<byte>, counter: uint32): seq<byte> {
    iv + BigEndian(counter)
  }

  function Tag(mac: Mac, iv: seq<byte>, counter: uint32, p: seq<byte>): (r: seq<byte>)
    ensures |r| == ONETIMEAUTH_BYTES
  {
    mac(Key(iv, counter), p)[..ONETIMEAUTH_BYTES]
  }

  /** What ss_gen_hash makes of a payload. */
  function Framed(mac: Mac, iv: seq<byte>, counter: uint32, p: seq<byte>): (r: seq<byte>)
    ensures |r| == |p| + AUTH_BYTES
  {
    [Hi(|p|), Lo(|p|)] + Tag(mac, iv, counter, p) + p
  }

  /** How many bytes the chunk that starts with `x` has. */
  function ChunkSize(x: seq<byte>): nat
    requires |x| >= CLEN_BYTES
  {
    Word(x[0], x[1]) + AUTH_BYTES
  }

  /** One chunk, as ss_check_hash recognises it; the state is the chunk counter. */
  function Peel(mac: Mac, iv: seq<byte>, counter: uint32, x: seq<byte>): Peeled<uint32> {
    if |x| < CLEN_BYTES || |x| < ChunkSize(x) then More
    else
      var n := ChunkSize(x);
      var p := x[AUTH_BYTES..n];
      if x[CLEN_BYTES..AUTH_BYTES] != Tag(mac, iv, counter, p) then Bad else Frame(n, p, Next(counter))
  }

  function Peeler(mac: Mac, iv: seq<byte>): (uint32, seq<byte>) -> Peeled<uint32> {
    (counter: uint32, x: seq<byte>) => Peel(mac, iv, counter, x)
  }

  lemma PeelerIsPeel(mac: Mac, iv: seq<byte>, counter: uint32, x: seq<byte>)
    ensures Peeler(mac, iv)(counter, x) == Peel(mac, iv, counter, x)
  {
  }

  lemma NothingYet(mac: Mac, iv: seq<byte>)
    ensures forall counter :: Peeler(mac, iv)(counter, []) == More
  {
  }

  lemma PeelSteadyAt(mac: Mac, iv: seq<byte>, counter: uint32, x: seq<byte>, y: seq<byte>)
    requires !Peel(mac, iv, counter, x).More?
    ensures Peel(mac, iv, counter, x + y) == Peel(mac, iv, counter, x)
  {
    assert ChunkSize(x + y) == ChunkSize(x);
    PrefixOfConcat(x, y, ChunkSize(x));
  }

  lemma PeelerSteady(mac: Mac, iv: seq<byte>)
    ensures Steady(Peeler(mac, iv))
  {
    forall counter, x, y | !Peeler(mac, iv)(counter, x).More?
      ensures Peeler(mac, iv)(counter, x + y) == Peeler(mac, iv)(counter, x)
    {
      PeelSteadyAt(mac, iv, counter, x, y);
    }
  }

  /** The receiver takes a chunk with its own counter off the stream and waits for every shorter prefix of it. */
  lemma FramedCarries(mac: Mac, iv: seq<byte>, counter: uint32, p: seq<byte>)
    requires |p| < 0x1_0000
    ensures Carries(Peeler(mac, iv), counter, Framed(mac, iv, counter, p), p, Next(counter))
  {
    hide Tag, Next;
    var f := Framed(mac, iv, counter, p);
    WordOfBytes(|p|);
    forall z ensures Peeler(mac, iv)(counter, f + z) == Frame(|f|, p, Next(counter)) {
      Layout([Hi(|p|), Lo(|p|)], Tag(mac, iv, counter, p), p, [], z);
      assert f + [] == f;
      assert (f + z)[0] == Hi(|p|) && (f + z)[1] == Lo(|p|);
      assert (f + z)[CLEN_BYTES..AUTH_BYTES] == f[CLEN_BYTES..AUTH_BYTES] == Tag(mac, iv, counter, p);
    }
    assert f + [] == f;
    forall k | 0 <= k < |f| ensures Peeler(mac, iv)(counter, f[..k]) == More {
    }
  }

  /** `frames` are the chunks of `payloads` under the counters from `counter`. */
  ghost predicate AllFramed(mac: Mac, iv: seq<byte>, counter: uint32, frames: seq<seq<byte>>,
      payloads: seq<seq<byte>>) {
    && |frames| == |payloads|
    && forall i :: 0 <= i < |frames| ==> frames[i] == Framed(mac, iv, Ids(counter, |frames|)[i], payloads[i])
  }

  lemma FramedIsStream(mac: Mac, iv: seq<byte>, counter: uint32, frames: seq<seq<byte>>, payloads: seq<seq<byte>>)
    requires AllFramed(mac, iv, counter, frames, payloads)
    requires forall i :: 0 <= i < |payloads| ==> |payloads[i]| < 0x1_0000
    ensures Stream(Peeler(mac, iv), Ids(counter, |frames|), frames, payloads)
  {
    hide Framed, Ids, Next;
    var states := Ids(counter, |frames|);
    forall i | 0 <= i < |frames|
      ensures Carries(Peeler(mac, iv), states[i], frames[i], payloads[i], states[i + 1])
    {
      IdsStep(counter, |frames|, i);
      FramedCarries(mac, iv, states[i], payloads[i]);
    }
  }

  /** Chunks of any payloads below 64 KiB, delivered in any pieces: no call rejects, the outputs are the payloads, and
      the counter has counted the chunks. */
  lemma Recovered(mac: Mac, iv: seq<byte>, counter: uint32,
                  frames: seq<seq<byte>>, payloads: seq<seq<byte>>, pieces: seq<seq<byte>>)
    requires AllFramed(mac, iv, counter, frames, payloads) && Flatten(pieces) == Flatten(frames)
    requires forall i :: 0 <= i < |payloads| ==> |payloads[i]| < 0x1_0000
    ensures var d := Feed(Peeler(mac, iv), counter, [], pieces);
            d.status == Ok && d.out == Flatten(payloads) && d.rest == [] &&
            d.state == (counter + |payloads|) % 0x1_0000_0000
  {
    hide Framed, Peeler, Ids, Drain, Flatten, Feed;
    IdsStart(counter, |frames|);
    NothingYet(mac, iv);
    FramedIsStream(mac, iv, counter, frames, payloads);
    PeelerSteady(mac, iv);
    Finished(mac, iv, counter, frames, payloads, pieces);
  }

  lemma Finished(mac: Mac, iv: seq<byte>, counter: uint32,
                 frames: seq<seq<byte>>, payloads: seq<seq<byte>>, pieces: seq<seq<byte>>)
    requires Steady(Peeler(mac, iv)) && Stream(Peeler(mac, iv), Ids(counter, |frames|), frames, payloads)
    requires Flatten(pieces) == Flatten(frames) && AllFramed(mac, iv, counter, frames, payloads)
    requires forall i :: 0 <= i < |payloads| ==> |payloads[i]| < 0x1_0000
    ensures var d := Feed(Peeler(mac, iv), counter, [], pieces);
            d.status == Ok && d.out == Flatten(payloads) && d.rest == [] && d.state == Ids(counter, |frames|)[|frames|]
  {
    hide Framed, Peeler, Ids, Drain, Flatten, Feed, Stream, Steady, Peel, Next;
    IdsStart(counter, |frames|);
    NothingYet(mac, iv);
    StreamDelivered(Peeler(mac, iv), Ids(counter, |frames|), frames, payloads, pieces);
    if frames != [] {
      var n := |frames| - 1;
      LastTaken(mac, iv, Ids(counter, |frames|)[n], payloads[n]);
      assert Flatten(pieces) == Flatten(frames) && frames[n] == Framed(mac, iv, Ids(counter, |frames|)[n], payloads[n]);
    }
  }

  lemma LastTaken(mac: Mac, iv: seq<byte>, counter: uint32, p: seq<byte>)
    requires |p| < 0x1_0000
    ensures Peeler(mac, iv)(counter, Framed(mac, iv, counter, p)).Frame?
  {
    FramedCarries(mac, iv, counter, p);
  }

  /** After every prefix of the stream the counter is the number of complete chunks, and less than one chunk is kept. */
  lemma CountsChunks(mac: Mac, iv: seq<byte>, counter: uint32, frames: seq<seq<byte>>, payloads: seq<seq<byte>>,
      received: seq<byte>)
    returns (n: nat)
    requires AllFramed(mac, iv, counter, frames, payloads) && received <= Flatten(frames)
    requires forall i :: 0 <= i < |payloads| ==> |payloads[i]| < 0x1_0000
    ensures var d := Drain(Peeler(mac, iv), counter, received);
            && n <= |frames| && d.status == Ok && d.out == Flatten(payloads[..n])
            && d.state == (counter + n) % 0x1_0000_0000 && (d.rest == [] || (n < |frames| && d.rest < frames[n]))
  {
    hide Framed, Peeler, Ids, Drain, Flatten, Carries, Steady;
    IdsStart(counter, |frames|);
    NothingYet(mac, iv);
    FramedIsStream(mac, iv, counter, frames, payloads);
    n := PrefixDelivered(Peeler(mac, iv), Ids(counter, |frames|), frames, payloads, received);
    DrainedWantsMore(Peeler(mac, iv), counter, received);
    if n < |frames| {
      LastTaken(mac, iv, Ids(counter, |frames|)[n], payloads[n]);
    }
  }

  // ---- Only in its place ----

  /** The key by its bytes: the counter with its high byte first. */
  function CounterKey(iv: seq<byte>, counter: uint32): seq<byte> {
    iv + [counter / 0x100_0000, counter / 0x1_0000 % 0x100, counter / 0x100 % 0x100, counter % 0x100]
  }

  lemma KeyOfCounter(iv: seq<byte>, counter: uint32)
    ensures Key(iv, counter) == CounterKey(iv, counter)
  {
  }

  lemma FramedUnder(mac: Mac, iv: seq<byte>, counter: uint32, p: seq<byte>)
    requires |p| < 0x1_0000
    ensures Framed(mac, iv, counter, p) == [|p| / 0x100, |p| % 0x100] + mac(CounterKey(iv, counter), p)[..10] + p
  {
    KeyOfCounter(iv, counter);
  }

  /** A receiver that has counted `j` chunks takes a chunk with counter `i` exactly if the code of its payload is the
      same under both, and refuses it otherwise. */
  lemma InPlaceIff(mac: Mac, iv: seq<byte>, i: uint32, j: uint32, p: seq<byte>, z: seq<byte>)
    requires |p| < 0x1_0000
    ensures var f := Framed(mac, iv, i, p);
            Peel(mac, iv, j, f + z) == if mac(CounterKey(iv, i), p)[..10] == mac(CounterKey(iv, j), p)[..10]
                                       then Frame(|f|, p, Next(j)) else Bad
  {
    hide Key, CounterKey, Next;
    var f := Framed(mac, iv, i, p);
    KeyOfCounter(iv, i);
    KeyOfCounter(iv, j);
    WordOfBytes(|p|);
    Layout([Hi(|p|), Lo(|p|)], Tag(mac, iv, i, p), p, [], z);
    assert f + [] == f;
    assert (f + z)[0] == Hi(|p|) && (f + z)[1] == Lo(|p|);
    assert (f + z)[CLEN_BYTES..AUTH_BYTES] == f[CLEN_BYTES..AUTH_BYTES] == Tag(mac, iv, i, p);
  }

  /** After any chunks in order, however the stream arrives, a chunk of another counter is rejected if its code tells
      the counters apart. */
  lemma OutOfPlaceRejected(mac: Mac, iv: seq<byte>, counter: uint32, frames: seq<seq<byte>>, payloads: seq<seq<byte>>,
      i: uint32, p: seq<byte>, z: seq<byte>, pieces: seq<seq<byte>>)
    requires AllFramed(mac, iv, counter, frames, payloads)
    requires forall i :: 0 <= i < |payloads| ==> |payloads[i]| < 0x1_0000
    requires |p| < 0x1_0000 && Flatten(pieces) == Flatten(frames) + (Framed(mac, iv, i, p) + z)
    requires mac(CounterKey(iv, i), p)[..10] != mac(CounterKey(iv, (counter + |frames|) % 0x1_0000_0000), p)[..10]
    ensures Feed(Peeler(mac, iv), counter, [], pieces).status == Rejected
  {
    hide Peel, Framed, CounterKey, Ids, Flatten, Feed, Stream, Next, Steady, AllFramed, Peeler;
    var states, w := Ids(counter, |frames|), Framed(mac, iv, i, p) + z;
    IdsStart(counter, |frames|);
    NothingYet(mac, iv);
    PeelerSteady(mac, iv);
    FramedIsStream(mac, iv, counter, frames, payloads);
    TakenAtOnce(mac, iv, counter, frames, payloads);
    InPlaceIff(mac, iv, i, states[|frames|], p, z);
    PeelerIsPeel(mac, iv, states[|frames|], w);
    StreamThenBad(Peeler(mac, iv), states, frames, payloads, w, pieces);
  }

  /** A complete chunk does not wait for what follows it. */
  lemma TakenAtOnce(mac: Mac, iv: seq<byte>, counter: uint32, frames: seq<seq<byte>>, payloads: seq<seq<byte>>)
    requires AllFramed(mac, iv, counter, frames, payloads)
    requires forall i :: 0 <= i < |payloads| ==> |payloads[i]| < 0x1_0000
    ensures forall k :: 0 <= k < |frames| ==> Peeler(mac, iv)(Ids(counter, |frames|)[k], frames[k]).Frame?
  {
    hide Peel, Framed, CounterKey, Ids, Next;
    forall k | 0 <= k < |frames| ensures Peeler(mac, iv)(Ids(counter, |frames|)[k], frames[k]).Frame? {
      var n := Ids(counter, |frames|)[k];
      InPlaceIff(mac, iv, n, n, payloads[k], []);
      assert frames[k] + [] == frames[k];
    }
  }

  /** A complete chunk with a wrong code. */
  predicate Refused(mac: Mac, key: seq<byte>, z: seq<byte>) {
    && |z| >= 12 && Word(z[0], z[1]) + 12 <= |z|
    && mac(key, z[12..Word(z[0], z[1]) + 12])[..10] != z[2..12]
  }

  /** Over every stream, however it arrives, it is rejected exactly when such a chunk follows chunks that are taken. */
  lemma RejectedIff(mac: Mac, iv: seq<byte>, counter: uint32, pieces: seq<seq<byte>>)
    ensures Feed(Peeler(mac, iv), counter, [], pieces).status == Rejected
       <==> HoldsRefused(Peeler(mac, iv), (n: uint32, z: seq<byte>) => Refused(mac, CounterKey(iv, n), z), counter,
                         Flatten(pieces))
  {
    hide Feed, Flatten, OwnBytes, Taken, Key, CounterKey;
    var refused := (n: uint32, z: seq<byte>) => Refused(mac, CounterKey(iv, n), z);
    PeelerSteady(mac, iv);
    NothingYet(mac, iv);
    forall s, x ensures OwnBytes(Peeler(mac, iv), s, x) && (Peeler(mac, iv)(s, x).Bad? <==> refused(s, x)) {
      OwnChunk(mac, iv, s, x);
      KeyOfCounter(iv, s);
    }
    RejectedExactly(Peeler(mac, iv), refused, counter, pieces);
  }

  lemma OwnChunk(mac: Mac, iv: seq<byte>, counter: uint32, x: seq<byte>)
    ensures OwnBytes(Peeler(mac, iv), counter, x)
  {
    hide Tag;
    if |x| >= 12 && ChunkSize(x) <= |x| {
      var n := ChunkSize(x);
      assert x[..n][0] == x[0] && x[..n][1] == x[1];
      assert x[..n][2..12] == x[2..12] && x[..n][12..n] == x[12..n];
    }
  }

  // ---- encrypt.c ----

  /** ss_gen_hash */
  method GenHash(mac: Mac, iv: seq<byte>, buf: Buffer, counter: uint32, capacity: nat) returns (counter': uint32)
    requires buf.Valid() && buf.len < 0x1_0000
    modifies buf, buf.data
    ensures buf.Valid() && (buf.data == old(buf.data) || fresh(buf.data))
    ensures buf.Contents() == Framed(mac, iv, counter, old(buf.Contents())) && counter' == Next(counter)
    ensures var p := old(buf.Contents());
            buf.Contents() == [|p| / 0x100, |p| % 0x100] + mac(CounterKey(iv, counter), p)[..10] + p
  {
    hide Key, CounterKey, Next;
    var blen := buf.len;
    ghost var p := buf.Contents();
    buf.Brealloc(AUTH_BYTES + blen, capacity);
    assert buf.data[..blen] == p;
    var hash := mac(Key(iv, counter), buf.data[..blen]);
    ghost var s0 := buf.data[..];
    Move(buf.data, AUTH_BYTES, 0, blen);
    ghost var s1 := buf.data[..];
    CopyInto(buf.data, CLEN_BYTES, hash[..ONETIMEAUTH_BYTES]);
    ghost var s2 := buf.data[..];
    CopyInto(buf.data, 0, [Hi(blen), Lo(blen)]);
    FrameInPlace(s0, s1, s2, buf.data[..], p, hash[..ONETIMEAUTH_BYTES], [Hi(blen), Lo(blen)]);
    buf.len := blen + AUTH_BYTES;
    counter' := Next(counter);
    FramedUnder(mac, iv, counter, p);
  }

  lemma FrameInPlace(s0: seq<byte>, s1: seq<byte>, s2: seq<byte>, s3: seq<byte>, p: seq<byte>, tag: seq<byte>,
      length: seq<byte>)
    requires |tag| == 10 && |length| == 2 && 12 + |p| <= |s0| && s0[..|p|] == p
    requires s1 == s0[..12] + s0[0..0 + |p|] + s0[12 + |p|..]
    requires s2 == s1[..2] + tag + s1[2 + |tag|..]
    requires s3 == s2[..0] + length + s2[0 + |length|..]
    ensures |s3| == |s0| && s3[..|p| + 12] == length + tag + p
  {
    assert s1[12..12 + |p|] == p;
    assert s2[12..12 + |p|] == p && s2[2..12] == tag;
  }

  /** chunk_t */
  class Chunk {
    var idx: nat
    var len: nat
    var counter: uint32
    const buf: Buffer

    constructor ()
      ensures idx == 0 && len == 0 && counter == 0 && fresh(buf) && fresh(buf.data) && buf.Valid()
    {
      idx := 0;
      len := 0;
      counter := 0;
      buf := new Buffer(0);
    }

    /** The first `cidx` bytes of the buffer are less than one chunk, and its length is known once it has arrived. */
    ghost predicate Partial(cidx: nat)
      reads this, buf, buf.data
    {
      && cidx <= buf.data.Length && len < 0x1_0000
      && (cidx >= CLEN_BYTES ==>
            ChunkSize(buf.data[..cidx]) == len + AUTH_BYTES && cidx < len + AUTH_BYTES <= buf.data.Length)
    }

    ghost predicate Valid()
      reads this, buf, buf.data
    {
      buf.len <= buf.data.Length && Partial(idx)
    }

    /** The part of a chunk that has arrived. */
    ghost function Rest(): seq<byte>
      requires Valid()
      reads this, buf, buf.data
    {
      buf.data[..idx]
    }

    /** Stores one byte; on the last length byte the length becomes known and the buffer grows. */
    method TakeByte(cidx: nat, b: byte, capacity: nat)
      requires Partial(cidx) && buf.len <= buf.data.Length && buf.data.Length >= 2
      modifies this`len, buf`data, buf.data
      ensures buf.data == old(buf.data) || fresh(buf.data)
      ensures buf.len <= buf.data.Length && cidx + 1 <= buf.data.Length && buf.data.Length >= 2 && len < 0x1_0000
      ensures buf.data[..cidx + 1] == old(buf.data[..cidx]) + [b]
      ensures cidx + 1 != CLEN_BYTES ==> len == old(len)
      ensures cidx + 1 >= CLEN_BYTES ==>
                ChunkSize(buf.data[..cidx + 1]) == len + AUTH_BYTES && cidx + 1 <= len + AUTH_BYTES <= buf.data.Length
    {
      ghost var before := buf.data[..cidx];
      buf.data[cidx] := b;
      assert buf.data[..cidx + 1] == before + [b];
      if cidx + 1 == CLEN_BYTES {
        var clen := Word(buf.data[0], buf.data[1]);
        ghost var two := buf.data[..2];
        ghost var n := buf.data.Length;
        buf.Brealloc(clen + AUTH_BYTES, capacity);
        assert buf.data[..2] == buf.data[..n][..2] == two;
        len := clen;
      }
    }
  }

  /** What a drain delivers after `out` was delivered before. */
  /** A complete chunk is taken or refused whatever follows it. */
  lemma ChunkDone(mac: Mac, iv: seq<byte>, counter: uint32, r: seq<byte>, y: seq<byte>)
    requires |r| >= CLEN_BYTES && |r| == ChunkSize(r)
    ensures var p := r[AUTH_BYTES..];
            var d := Drain(Peeler(mac, iv), counter, r + y);
            if r[CLEN_BYTES..AUTH_BYTES] == Tag(mac, iv, counter, p)
            then d == Resume(p, Drain(Peeler(mac, iv), Next(counter), y))
            else d.status == Rejected
  {
    hide Tag, Next;
    assert r[AUTH_BYTES..ChunkSize(r)] == r[AUTH_BYTES..];
    PeelSteadyAt(mac, iv, counter, r, y);
    assert (r + y)[|r|..] == y;
  }

  lemma ChunkPending(mac: Mac, iv: seq<byte>, counter: uint32, r: seq<byte>)
    requires |r| >= CLEN_BYTES ==> |r| < ChunkSize(r)
    ensures Drain(Peeler(mac, iv), counter, r) == Drained(Ok, [], r, counter)
  {
  }

  /** The part of ss_check_hash that runs when a chunk is complete: compares the code, and moves the payload to `j` and
      the `n` unread bytes from `k` behind it. */
  method Complete(mac: Mac, iv: seq<byte>, buf: Buffer, chunk: Chunk, j: nat, k: nat, n: nat) returns (ok: bool)
    requires chunk.len + AUTH_BYTES <= chunk.buf.data.Length && buf.data != chunk.buf.data
    requires j + chunk.len + n <= buf.data.Length && k + n <= buf.data.Length
    modifies buf.data, chunk`counter
    ensures var r := chunk.buf.data[..chunk.len + AUTH_BYTES]; var p := r[AUTH_BYTES..];
            && (ok <==> r[CLEN_BYTES..AUTH_BYTES] == Tag(mac, iv, old(chunk.counter), p))
            && (ok ==> && chunk.counter == Next(old(chunk.counter))
                       && buf.data[..j + chunk.len] == old(buf.data[..j]) + p
                       && buf.data[j + chunk.len..j + chunk.len + n] == old(buf.data[k..k + n]))
  {
    hide Next, Key;
    var len, end := chunk.len, chunk.len + AUTH_BYTES;
    RangeOfPrefix(chunk.buf.data, end, AUTH_BYTES, end);
    RangeOfPrefix(chunk.buf.data, end, CLEN_BYTES, AUTH_BYTES);
    var p := chunk.buf.data[AUTH_BYTES..end];
    var hash := mac(Key(iv, chunk.counter), p)[..ONETIMEAUTH_BYTES];
    if hash != chunk.buf.data[CLEN_BYTES..AUTH_BYTES] {
      return false;
    }
    PutBack(buf.data, p, j, k, n);
    chunk.counter := Next(chunk.counter);
    ok := true;
  }

  /** The payload to `j`, and the unread bytes behind it. */
  method PutBack(a: array<byte>, p: seq<byte>, j: nat, k: nat, n: nat)
    requires j + |p| + n <= a.Length && k + n <= a.Length
    modifies a
    ensures a[..j + |p|] == old(a[..j]) + p && a[j + |p|..j + |p| + n] == old(a[k..k + n])
  {
    ghost var s0 := a[..];
    Move(a, j + |p|, k, n);
    ghost var s1 := a[..];
    CopyInto(a, j, p);
    CopiedBack(s0, s1, a[..], j, k, n, p);
  }

  lemma CopiedBack(s0: seq<byte>, s1: seq<byte>, s2: seq<byte>, j: nat, k: nat, n: nat, p: seq<byte>)
    requires j + |p| + n <= |s0| && k + n <= |s0|
    requires s1 == s0[..j + |p|] + s0[k..k + n] + s0[j + |p| + n..]
    requires s2 == s1[..j] + p + s1[j + |p|..]
    ensures |s2| == |s0| && s2[..j + |p|] == s0[..j] + p && s2[j + |p|..j + |p| + n] == s0[k..k + n]
  {
    assert s1[..j] == s0[..j];
    assert s1[j + |p|..j + |p| + n] == s0[k..k + n];
  }

  /** Whether the bytes so far are a complete chunk; if so, it is unpacked and the next one starts. The unread bytes are
      the `n` bytes from `k`. */
  method Settle(mac: Mac, iv: seq<byte>, buf: Buffer, chunk: Chunk, cidx: nat, j: nat, k: nat, n: nat)
    returns (ok: bool, j': nat, k': nat, cidx': nat, ghost p: seq<byte>)
    requires buf.data != chunk.buf.data && j <= k && k + n <= buf.data.Length && chunk.len < 0x1_0000
    requires cidx <= chunk.buf.data.Length && cidx <= chunk.len + AUTH_BYTES
    requires cidx >= CLEN_BYTES ==>
               ChunkSize(chunk.buf.data[..cidx]) == chunk.len + AUTH_BYTES <= chunk.buf.data.Length
    requires cidx == chunk.len + AUTH_BYTES ==> j + chunk.len + n <= buf.data.Length
    modifies buf.data, chunk`counter
    ensures ok ==> chunk.Partial(cidx') && j' + n <= buf.data.Length && k' + n <= buf.data.Length
    ensures ok ==> buf.data[..j'] == old(buf.data[..j]) + p && buf.data[k'..k' + n] == old(buf.data[k..k + n])
    ensures (j', k', cidx')
         == if ok && cidx == chunk.len + AUTH_BYTES then (j + chunk.len, j + chunk.len, 0) else (j, k, cidx)
    ensures var d := Drain(Peeler(mac, iv), old(chunk.counter), chunk.buf.data[..cidx] + old(buf.data[k..k + n]));
            if ok
            then d == Resume(p,
            Drain(Peeler(mac, iv), chunk.counter, chunk.buf.data[..cidx'] + old(buf.data[k..k + n])))
            else d.status == Rejected
  {
    hide Peeler, Tag, Next, Drain, Resume;
    ghost var y, c := buf.data[k..k + n], chunk.counter;
    ok, j', k', cidx', p := true, j, k, cidx, [];
    if cidx == chunk.len + AUTH_BYTES {
      ghost var r := chunk.buf.data[..cidx];
      ChunkDone(mac, iv, c, r, y);
      ok := Complete(mac, iv, buf, chunk, j, k, n);
      if ok {
        p := r[AUTH_BYTES..];
        j' := j + chunk.len;
        k' := j';
        cidx' := 0;
        assert chunk.buf.data[..0] + y == y;
      }
    } else {
      ResumeTwice([], [], Drain(Peeler(mac, iv), c, chunk.buf.data[..cidx] + y));
      assert buf.data[..j] + [] == buf.data[..j];
    }
  }

  /** Where ss_check_hash stands in its buffers: `first` until a chunk is complete. The unread bytes start at `k`,
      behind the output, and never reach further than the size reserved at entry. */
  ghost predicate Room(first: bool, idx0: nat, len0: nat, len: nat, cidx: nat, i: nat, j: nat, k: nat) {
    && j <= k && k <= len0 + i
    && (if first then j == 0 && k == i && cidx == idx0 + i && (idx0 >= 2 ==> len == len0)
        else k == j + cidx)
  }

  lemma RoomAtStart(idx0: nat, len0: nat, len: nat)
    requires len == len0
    ensures Room(true, idx0, len0, len, idx0, 0, 0, 0)
  {
  }

  /** After one more byte there is room for the unread bytes, and for the payload if the byte completes the chunk. */
  lemma RoomAfter(first: bool, idx0: nat, len0: nat, len: nat, len': nat, cidx: nat, i: nat, j: nat, k: nat)
    requires Room(first, idx0, len0, len, cidx, i, j, k) && (cidx + 1 != CLEN_BYTES ==> len' == len)
    ensures j <= k < k + 1 <= len0 + i + 1
    ensures if cidx + 1 == len' + AUTH_BYTES
            then j + len' <= len0 + i + 1 && Room(false, idx0, len0, len', 0, i + 1, j + len', j + len')
            else Room(first, idx0, len0, len', cidx + 1, i + 1, j, k + 1)
  {
  }

  lemma TakeOne(s: seq<byte>, k: nat, n: nat, r: seq<byte>)
    requires 0 < n && k + n <= |s|
    ensures r + s[k..k + n] == (r + [s[k]]) + s[k + 1..k + n] && s[k..k + n][1..] == s[k + 1..k + n]
  {
  }

  /** One turn of the loop of ss_check_hash: the byte at `k`, with `n - 1` more bytes behind it. */
  method Turn(mac: Mac, iv: seq<byte>, buf: Buffer, chunk: Chunk, capacity: nat, cidx: nat, j: nat, k: nat, n: nat,
              ghost first: bool, ghost idx0: nat, ghost len0: nat, ghost i: nat)
    returns (ok: bool, j': nat, k': nat, cidx': nat, ghost p: seq<byte>, ghost first': bool)
    requires buf.data != chunk.buf.data && 0 < n && len0 + i + n <= buf.data.Length
    requires chunk.Partial(cidx) && chunk.buf.len <= chunk.buf.data.Length && chunk.buf.data.Length >= 2
    requires Room(first, idx0, len0, chunk.len, cidx, i, j, k) && j <= k <= len0 + i
    modifies buf.data, chunk`len, chunk`counter, chunk.buf`data, chunk.buf.data
    ensures chunk.buf.data == old(chunk.buf.data) || fresh(chunk.buf.data)
    ensures chunk.buf.len <= chunk.buf.data.Length && chunk.buf.data.Length >= 2
    ensures ok ==>
              && chunk.Partial(cidx') && Room(first', idx0, len0, chunk.len, cidx', i + 1, j', k')
              && j' <= k' <= len0 + i + 1
    ensures ok ==> buf.data[..j'] == old(buf.data[..j]) + p && buf.data[k'..k' + (n - 1)] == old(buf.data[k + 1..k + n])
    ensures var d := Drain(Peeler(mac, iv), old(chunk.counter), old(chunk.buf.data[..cidx]) + old(buf.data[k..k + n]));
            if ok
            then d == Resume(p,
            Drain(Peeler(mac, iv), chunk.counter, chunk.buf.data[..cidx'] + old(buf.data[k + 1..k + n])))
            else d.status == Rejected
  {
    hide Peeler, Tag, Next, Drain, Resume, Room;
    ghost var r, len := chunk.buf.data[..cidx], chunk.len;
    TakeOne(buf.data[..], k, n, r);
    chunk.TakeByte(cidx, buf.data[k], capacity);
    RoomAfter(first, idx0, len0, len, chunk.len, cidx, i, j, k);
    first' := first && cidx + 1 != chunk.len + AUTH_BYTES;
    ok, j', k', cidx', p := Settle(mac, iv, buf, chunk, cidx + 1, j, k + 1, n - 1);
  }

  /** The loop of ss_check_hash, on the `blen` bytes at the start of the buffer: the output takes their place. */
  method CheckLoop(mac: Mac, iv: seq<byte>, buf: Buffer, chunk: Chunk, blen: nat, capacity: nat)
    returns (ok: bool, j: nat, cidx: nat)
    requires buf != chunk.buf && buf.data != chunk.buf.data && chunk.len + blen <= buf.data.Length
    requires chunk.Valid() && chunk.buf.data.Length >= 2
    modifies buf.data, chunk`len, chunk`counter, chunk.buf`data, chunk.buf.data
    ensures chunk.buf.data == old(chunk.buf.data) || fresh(chunk.buf.data)
    ensures chunk.buf.len <= chunk.buf.data.Length && (ok ==> chunk.Partial(cidx) && j <= buf.data.Length)
    ensures var d := Drain(Peeler(mac, iv), old(chunk.counter), old(chunk.Rest()) + old(buf.data[..blen]));
            if ok then d == Drained(Ok, buf.data[..j], chunk.buf.data[..cidx], chunk.counter) else d.status == Rejected
  {
    hide Peeler, Drain, ChunkSize, Resume, Room;
    ghost var y, peel := buf.data[..blen], Peeler(mac, iv);
    ghost var d := Drain(peel, chunk.counter, chunk.Rest() + y);
    var i: nat, k: nat := 0, 0;
    j, cidx := 0, chunk.idx;
    ghost var out: seq<byte>, p: seq<byte>, first, len0, idx0 := [], [], true, chunk.len, chunk.idx;
    ResumeTwice([], [], d);
    RoomAtStart(idx0, len0, chunk.len);
    while i < blen
      invariant i <= blen && buf.data != chunk.buf.data
      invariant chunk.buf.data == old(chunk.buf.data) || fresh(chunk.buf.data)
      invariant chunk.Partial(cidx) && chunk.buf.len <= chunk.buf.data.Length && chunk.buf.data.Length >= 2
      invariant Room(first, idx0, len0, chunk.len, cidx, i, j, k) && j <= k <= len0 + i
      invariant y == buf.data[k..k + (blen - i)] && buf.data[..j] == out
      invariant d == Resume(out, Drain(peel, chunk.counter, chunk.buf.data[..cidx] + y))
    {
      ResumeStatus(out, Drain(peel, chunk.counter, chunk.buf.data[..cidx] + y));
      y := buf.data[k + 1..k + (blen - i)];
      ok, j, k, cidx, p, first := Turn(mac, iv, buf, chunk, capacity, cidx, j, k, blen - i, first, idx0, len0, i);
      if !ok {
        return;
      }
      ResumeTwice(out, p, Drain(peel, chunk.counter, chunk.buf.data[..cidx] + y));
      out := out + p;
      i := i + 1;
    }
    ok := true;
    EndOfInput(mac, iv, chunk.counter, chunk.buf.data[..cidx], y, out);
  }

  lemma EndOfInput(mac: Mac, iv: seq<byte>, counter: uint32, r: seq<byte>, y: seq<byte>, out: seq<byte>)
    requires y == [] && (|r| >= CLEN_BYTES ==> |r| < ChunkSize(r))
    ensures Resume(out, Drain(Peeler(mac, iv), counter, r + y)) == Drained(Ok, out, r, counter)
  {
    ChunkPending(mac, iv, counter, r);
    assert r + y == r && out + [] == out;
  }

  /** ss_check_hash. On success the buffer holds the payloads that became complete; every byte it writes on the way is
      inside the size it reserved at entry. */
  method CheckHash(mac: Mac, iv: seq<byte>, buf: Buffer, chunk: Chunk, capacity: nat) returns (ok: bool)
    requires buf.Valid() && chunk.Valid() && capacity >= 2
    requires buf != chunk.buf && buf.data != chunk.buf.data
    modifies buf, buf.data, chunk, chunk.buf, chunk.buf.data
    ensures buf.data == old(buf.data) || fresh(buf.data)
    ensures chunk.buf.data == old(chunk.buf.data) || fresh(chunk.buf.data)
    ensures var d := Drain(Peeler(mac, iv), old(chunk.counter), old(chunk.Rest()) + old(buf.Contents()));
            && (ok <==> d.status == Ok)
            && (ok ==> && buf.Valid() && chunk.Valid() && buf.Contents() == d.out
                       && chunk.Rest() == d.rest && chunk.counter == d.state)
  {
    hide Peeler, Drain;
    var blen, j, cidx := buf.len, 0, 0;
    chunk.buf.Brealloc(chunk.len + blen, capacity);
    assert chunk.buf.data[..chunk.idx] == old(chunk.Rest());
    buf.Brealloc(chunk.len + blen, capacity);
    ok, j, cidx := CheckLoop(mac, iv, buf, chunk, blen, capacity);
    if ok {
      buf.len := j;
      chunk.idx := cidx;
    }
  }
}
