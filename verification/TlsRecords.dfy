/** The application data records of tls1.2_ticket.c: both sides cut their bytes into records and put them together
    again. */
module TlsRecords {
  import opened Bits
  import opened Sequences
  import opened Buffers
  import opened Framing
  import opened GrowingBuffer

  /** A record for a payload below 64 KiB. */
  function Record(p: seq<byte>): (r: seq<byte>)
    ensures |r| == |p| + 5
  {
    [0x17, 3, 3, Hi(|p|), Lo(|p|)] + p
  }

  function Records(parts: seq<seq<byte>>): seq<seq<byte>> {
    seq(|parts|, i requires 0 <= i < |parts| => Record(parts[i]))
  }

  lemma RecordsSnoc(parts: seq<seq<byte>>, p: seq<byte>)
    ensures Records(parts + [p]) == Records(parts) + [Record(p)]
    ensures Flatten(Records(parts + [p])) == Flatten(Records(parts)) + Record(p)
    ensures Flatten(parts + [p]) == Flatten(parts) + p
  {
    assert Records(parts + [p]) == Records(parts) + [Record(p)];
    FlattenConcat(Records(parts), [Record(p)]);
    FlattenConcat(parts, [p]);
    One(Record(p));
    One(p);
  }

  lemma One(p: seq<byte>)
    ensures Flatten([p]) == p
  {
  }

  lemma RecordsConcat(a: seq<seq<byte>>, b: seq<seq<byte>>)
    ensures Records(a + b) == Records(a) + Records(b)
    ensures Flatten(Records(a + b)) == Flatten(Records(a)) + Flatten(Records(b))
  {
    assert Records(a + b) == Records(a) + Records(b);
    FlattenConcat(Records(a), Records(b));
  }

  /** One turn of the decode loops. The server (`strict`) checks the version too. There is no counter: the state stays
      0. */
  function Peel(strict: bool, s: uint32, x: seq<byte>): Peeled<uint32> {
    if |x| <= 5 then More
    else if x[0] != 0x17 || (strict && (x[1] != 3 || x[2] != 3)) then Bad
    else
      var size := Word(x[3], x[4]);
      if size + 5 > |x| then More else Frame(size + 5, x[5..size + 5], s)
  }

  function Peeler(strict: bool): (uint32, seq<byte>) -> Peeled<uint32> {
    (s: uint32, x: seq<byte>) => Peel(strict, s, x)
  }

  lemma PeelerIsPeel(strict: bool, s: uint32, x: seq<byte>)
    ensures Peeler(strict)(s, x) == Peel(strict, s, x)
  {
  }

  lemma NothingYet(strict: bool)
    ensures forall s :: Peeler(strict)(s, []) == More
  {
  }

  lemma PeelSteadyAt(strict: bool, s: uint32, x: seq<byte>, y: seq<byte>)
    requires !Peel(strict, s, x).More?
    ensures Peel(strict, s, x + y) == Peel(strict, s, x)
  {
    PrefixOfConcat(x, y, 5);
  }

  lemma PeelerSteady(strict: bool)
    ensures Steady(Peeler(strict))
  {
    forall s, x, y | !Peeler(strict)(s, x).More? ensures Peeler(strict)(s, x + y) == Peeler(strict)(s, x) {
      PeelSteadyAt(strict, s, x, y);
    }
  }

  /** A record is taken off the stream as soon as it is complete; an empty one as soon as a byte follows it. */
  lemma RecordCarries(strict: bool, s: uint32, p: seq<byte>)
    requires |p| < 0x1_0000
    ensures Carries(Peeler(strict), s, Record(p), p, s)
  {
    var f := Record(p);
    WordOfBytes(|p|);
    forall z | z != [] || p != [] ensures Peeler(strict)(s, f + z) == Frame(|f|, p, s) {
      assert (f + z)[..5] == f[..5];
      assert (f + z)[5..|f|] == p;
    }
    assert f + [] == f;
    forall k | 0 <= k < |f| ensures Peeler(strict)(s, f[..k]) == More {
    }
  }

  ghost predicate Short(parts: seq<seq<byte>>) {
    forall i :: 0 <= i < |parts| ==> |parts[i]| < 0x1_0000
  }

  lemma RecordsAreStream(strict: bool, parts: seq<seq<byte>>)
    requires Short(parts)
    ensures Stream(Peeler(strict), Zeros(|parts| + 1), Records(parts), parts)
  {
    var states := Zeros(|parts| + 1);
    forall i | 0 <= i < |parts|
      ensures Carries(Peeler(strict), states[i], Records(parts)[i], parts[i], states[i + 1])
    {
      RecordCarries(strict, 0, parts[i]);
    }
  }

  /** Records of any lengths, cut into any pieces, give their payloads back; at most an empty record is still pending.
  */
  lemma RecordsDelivered(strict: bool, parts: seq<seq<byte>>, pieces: seq<seq<byte>>)
    requires Short(parts) && Flatten(pieces) == Flatten(Records(parts))
    ensures var d := Feed(Peeler(strict), 0, [], pieces);
            d.status == Ok && d.out == Flatten(parts) && d.state == 0 && (d.rest == [] || d.rest == Record([]))
  {
    hide Peel, Feed, Flatten, Steady, Stream;
    NothingYet(strict);
    RecordsAreStream(strict, parts);
    PeelerSteady(strict);
    StreamDelivered(Peeler(strict), Zeros(|parts| + 1), Records(parts), parts, pieces);
  }

  /** After any part of the stream, cut into any pieces, the payloads of the complete records have come out, and part of
      one record is kept. */
  lemma PrefixOfRecords(strict: bool, parts: seq<seq<byte>>, pieces: seq<seq<byte>>) returns (n: nat)
    requires Short(parts) && Flatten(pieces) <= Flatten(Records(parts))
    ensures var d := Feed(Peeler(strict), 0, [], pieces);
            && n <= |parts| && d.status == Ok && d.out == Flatten(parts[..n])
            && (d.rest == [] || (n < |parts| && d.rest <= Record(parts[n])))
  {
    hide Peel, Feed, Flatten, Steady, Carries;
    NothingYet(strict);
    RecordsAreStream(strict, parts);
    PeelerSteady(strict);
    n := PrefixDelivered(Peeler(strict), Zeros(|parts| + 1), Records(parts), parts, Flatten(pieces));
    Framing.PiecesDoNotMatter(Peeler(strict), 0, [], pieces);
    assert [] + Flatten(pieces) == Flatten(pieces);
  }

  /** Complete records of the right type; the server looks at their version too. */
  predicate RightRecord(strict: bool, f: seq<byte>) {
    |f| >= 5 && f[0] == 0x17 && (strict ==> f[1] == 3 && f[2] == 3) && 0x100 * (f[3] as int) + f[4] + 5 == |f|
  }

  /** The start of a record of another type or, for the server, of another version. */
  predicate WrongRecord(strict: bool, z: seq<byte>) {
    |z| > 5 && (z[0] != 0x17 || (strict && (z[1] != 3 || z[2] != 3)))
  }

  ghost predicate HoldsWrong(strict: bool, x: seq<byte>) {
    exists frames: seq<seq<byte>>, z ::
      (forall f :: f in frames ==> RightRecord(strict, f)) && WrongRecord(strict, z) && x == Flatten(frames) + z
  }

  lemma {:induction false} WrongBehind(strict: bool, x: seq<byte>) returns (frames: seq<seq<byte>>, z: seq<byte>)
    requires Drain(Peeler(strict), 0, x).status == Rejected
    ensures (forall f :: f in frames ==> RightRecord(strict, f)) && WrongRecord(strict, z) && x == Flatten(frames) + z
    decreases |x|
  {
    DrainStep(strict, x);
    if Peel(strict, 0, x).Frame? {
      var n := Peel(strict, 0, x).length;
      frames, z := WrongBehind(strict, x[n..]);
      var f := x[..n];
      assert ([f] + frames)[1..] == frames;
      Associate(f, Flatten(frames), z);
      assert x == f + x[n..];
      frames := [f] + frames;
    } else {
      frames, z := [], x;
      assert [] + x == x;
    }
  }

  lemma {:induction false} WrongRejects(strict: bool, frames: seq<seq<byte>>, z: seq<byte>)
    requires (forall f :: f in frames ==> RightRecord(strict, f)) && WrongRecord(strict, z)
    ensures Drain(Peeler(strict), 0, Flatten(frames) + z).status == Rejected
    decreases |frames|
  {
    var x := Flatten(frames) + z;
    DrainStep(strict, x);
    if frames == [] {
      assert x == z;
    } else {
      var f, y := frames[0], Flatten(frames[1..]) + z;
      Associate(f, Flatten(frames[1..]), z);
      assert x == f + y && x[|f|..] == y;
      assert f in frames && RightRecord(strict, f);
      assert x[0] == f[0] && x[1] == f[1] && x[2] == f[2] && x[3] == f[3] && x[4] == f[4];
      assert Peel(strict, 0, x).Frame? && Peel(strict, 0, x).length == |f|;
      WrongRejects(strict, frames[1..], z);
    }
  }

  /** Over every stream, however it arrives, it is rejected exactly when a wrong record follows right ones. */
  lemma RejectedIff(strict: bool, pieces: seq<seq<byte>>)
    ensures Feed(Peeler(strict), 0, [], pieces).status == Rejected <==> HoldsWrong(strict, Flatten(pieces))
  {
    hide Feed, Flatten, Drain, RightRecord, WrongRecord;
    var x := Flatten(pieces);
    NothingYet(strict);
    PeelerSteady(strict);
    Framing.PiecesDoNotMatter(Peeler(strict), 0, [], pieces);
    assert [] + x == x;
    if Drain(Peeler(strict), 0, x).status == Rejected {
      var frames, z := WrongBehind(strict, x);
    }
    if HoldsWrong(strict, x) {
      var frames: seq<seq<byte>>, z :|
        (forall f :: f in frames ==> RightRecord(strict, f)) && WrongRecord(strict, z) && x == Flatten(frames) + z;
      WrongRejects(strict, frames, z);
    }
  }

  // ---- Encoding ----

  /** A cut of long data: records of 100 to 4195 bytes while more than 2048 bytes are left, and a rest. Every such cut
      can be drawn. */
  ghost predicate Drawn(parts: seq<seq<byte>>, data: seq<byte>)
    decreases |parts|
  {
    if |data| > 2048 then
      parts != [] && 100 <= |parts[0]| <= 4195 && parts[0] <= data && Drawn(parts[1..], data[|parts[0]|..])
    else parts == if data == [] then [] else [data]
  }

  /** How the encoders cut a payload: below 1024 bytes into one record. */
  ghost predicate Cut(parts: seq<seq<byte>>, data: seq<byte>) {
    if |data| < 1024 then parts == [data] else Drawn(parts, data)
  }

  lemma {:induction false} DrawnCarries(parts: seq<seq<byte>>, data: seq<byte>)
    requires Drawn(parts, data)
    ensures Flatten(parts) == data && Short(parts)
    decreases |parts|
  {
    if |data| > 2048 {
      DrawnCarries(parts[1..], data[|parts[0]|..]);
      assert forall i :: 1 <= i < |parts| ==> parts[i] == parts[1..][i - 1];
    } else if data != [] {
      One(data);
    }
  }

  lemma CutCarries(parts: seq<seq<byte>>, data: seq<byte>)
    requires Cut(parts, data)
    ensures Flatten(parts) == data && Short(parts)
  {
    if |data| < 1024 {
      One(data);
    } else {
      DrawnCarries(parts, data);
    }
  }

  // ---- How much room the headers need ----

  /** The extra bytes that the encoders reserve for headers. */
  const EXTRA: nat := 2048

  /** The most bytes for which they are enough. */
  const MOST: nat := 42848

  /** The most records that `n` bytes can be cut into. */
  function MaxParts(n: nat): nat {
    if n > 2048 then 1 + MaxParts(n - 100) else if n > 0 then 1 else 0
  }

  lemma {:induction false} MaxPartsClosed(n: nat)
    requires n > 2048
    ensures MaxParts(n) == (n - 2048 + 99) / 100 + 1
  {
    if n - 100 > 2048 {
      MaxPartsClosed(n - 100);
    }
  }

  lemma {:induction false} MaxPartsGrows(m: nat, n: nat)
    requires m <= n
    ensures MaxParts(m) <= MaxParts(n)
  {
    if m > 2048 {
      MaxPartsGrows(m - 100, n - 100);
    }
  }

  lemma {:induction false} NoMoreParts(parts: seq<seq<byte>>, data: seq<byte>)
    requires Drawn(parts, data)
    ensures |parts| <= MaxParts(|data|)
    decreases |parts|
  {
    if |data| > 2048 {
      NoMoreParts(parts[1..], data[|parts[0]|..]);
      MaxPartsGrows(|data| - |parts[0]|, |data| - 100);
    }
  }

  /** The draws that make the most records. */
  function Hundreds(data: seq<byte>): (r: seq<seq<byte>>)
    ensures |r| == MaxParts(|data|)
    decreases |data|
  {
    if |data| > 2048 then [data[..100]] + Hundreds(data[100..]) else if data == [] then [] else [data]
  }

  lemma {:induction false} HundredsAreDrawn(data: seq<byte>)
    ensures Drawn(Hundreds(data), data)
    decreases |data|
  {
    if |data| > 2048 {
      HundredsAreDrawn(data[100..]);
      assert ([data[..100]] + Hundreds(data[100..]))[1..] == Hundreds(data[100..]);
    }
  }

  lemma {:induction false} RecordsLength(parts: seq<seq<byte>>)
    ensures |Flatten(Records(parts))| == |Flatten(parts)| + 5 * |parts|
  {
    if parts != [] {
      RecordsLength(parts[1..]);
      assert Records(parts)[1..] == Records(parts[1..]);
    }
  }

  /** The reserved bytes are enough for every draw. */
  lemma RoomForAll(parts: seq<seq<byte>>, data: seq<byte>)
    requires |data| <= MOST && Drawn(parts, data)
    ensures |Flatten(Records(parts))| <= |data| + EXTRA
  {
    DrawnCarries(parts, data);
    RecordsLength(parts);
    NoMoreParts(parts, data);
    MostParts(|data|);
  }

  lemma MostParts(n: nat)
    ensures n <= MOST <==> 5 * MaxParts(n) <= EXTRA
  {
    if n > 2048 {
      MaxPartsClosed(n);
    }
  }

  /** For longer data there are draws that need more: the bound is exact. */
  lemma NoRoomBeyond(data: seq<byte>)
    requires |data| > MOST
    ensures Drawn(Hundreds(data), data) && |Flatten(Records(Hundreds(data)))| > |data| + EXTRA
  {
    HundredsAreDrawn(data);
    DrawnCarries(Hundreds(data), data);
    RecordsLength(Hundreds(data));
    MostParts(|data|);
  }

  /** The five header bytes. */
  method StoreHeader(out: array<byte>, at: nat, len: nat)
    requires at + 5 <= out.Length
    modifies out
    ensures out[..at + 5] == old(out[..at]) + [0x17, 3, 3, Hi(len), Lo(len)] && out[at + 5..] == old(out[at + 5..])
  {
    out[at] := 0x17;
    out[at + 1] := 3;
    out[at + 2] := 3;
    out[at + 3] := Hi(len);
    out[at + 4] := Lo(len);
  }

  /** tls12_ticket_auth_pack_data */
  method PackData(data: seq<byte>, out: array<byte>, at: nat)
    requires |data| < 0x1_0000 && at + |data| + 5 <= out.Length
    modifies out
    ensures out[..at + |data| + 5] == old(out[..at]) + Record(data)
  {
    ghost var head := out[..at];
    StoreHeader(out, at, |data|);
    CopyInto(out, at + 5, data);
    Associate(head, [0x17, 3, 3, Hi(|data|), Lo(|data|)], data);
  }

  /** What the encode loop has written: whatever cut of the rest completes the cut of the data. */
  ghost predicate Encoding(out: seq<byte>, parts: seq<seq<byte>>, data: seq<byte>, start: nat)
    requires start <= |data|
  {
    && out == Flatten(Records(parts)) && |out| == start + 5 * |parts|
    && |parts| + MaxParts(|data| - start) <= MaxParts(|data|)
    && forall rest :: Drawn(rest, data[start..]) ==> Drawn(parts + rest, data)
  }

  lemma EncodingStarts(out: seq<byte>, data: seq<byte>)
    requires out == []
    ensures Encoding(out, [], data, 0)
  {
    hide Drawn;
    assert data[0..] == data;
    forall rest | Drawn(rest, data[0..]) ensures Drawn([] + rest, data) {
      assert [] + rest == rest;
    }
  }

  lemma OnePartLess(n: nat, len: nat)
    requires len <= n && if n > 2048 then 100 <= len else 0 < len == n
    ensures 1 + MaxParts(n - len) <= MaxParts(n)
  {
    if n > 2048 {
      MaxPartsGrows(n - len, n - 100);
    }
  }

  /** One record of the loop, or the last one. */
  lemma EncodingGrows(out: seq<byte>, parts: seq<seq<byte>>, data: seq<byte>, start: nat, len: nat)
    requires start + len <= |data| && Encoding(out, parts, data, start)
    requires if |data| - start > 2048 then 100 <= len <= 4195 else 0 < len == |data| - start
    ensures var p := data[start..start + len];
            Encoding(out + Record(p), parts + [p], data, start + len)
  {
    hide Record, Records, Flatten, Drawn, MaxParts;
    var p := data[start..start + len];
    RecordsSnoc(parts, p);
    OnePartLess(|data| - start, len);
    assert data[start..][..len] == p && data[start..][len..] == data[start + len..];
    forall rest | Drawn(rest, data[start + len..]) ensures Drawn((parts + [p]) + rest, data) {
      DrawnFirst(data[start..], len, rest);
      assert (parts + [p]) + rest == parts + ([p] + rest);
    }
  }

  lemma DrawnFirst(data: seq<byte>, len: nat, rest: seq<seq<byte>>)
    requires len <= |data| && (if |data| > 2048 then 100 <= len <= 4195 else 0 < len == |data|)
    requires Drawn(rest, data[len..])
    ensures Drawn([data[..len]] + rest, data)
  {
    assert ([data[..len]] + rest)[1..] == rest;
    if |data| <= 2048 {
      assert rest == [] && data[..len] == data;
    }
  }

  /** Nothing is left to cut. */
  lemma EncodingEnds(out: seq<byte>, parts: seq<seq<byte>>, data: seq<byte>)
    requires Encoding(out, parts, data, |data|)
    ensures Drawn(parts, data) && out == Flatten(Records(parts))
  {
    assert data[|data|..] == [] && Drawn([], data[|data|..]);
    assert parts + [] == parts;
  }

  /** While bytes are left there is room for one record more. */
  lemma EncodingRoom(out: seq<byte>, parts: seq<seq<byte>>, data: seq<byte>, start: nat, len: nat)
    requires 0 < len && start + len <= |data| <= MOST && Encoding(out, parts, data, start)
    ensures |out| + len + 5 <= |data| + EXTRA
  {
    MostParts(|data|);
  }

  /** The loop of both encoders for 1024 bytes and more. */
  method EncodeLoop(data: seq<byte>) returns (out: array<byte>, outlength: nat, ghost parts: seq<seq<byte>>)
    requires 1024 <= |data| <= MOST
    ensures fresh(out) && outlength <= out.Length
    ensures Cut(parts, data) && out[..outlength] == Flatten(Records(parts))
  {
    hide Encoding, Drawn;
    out := new byte[|data| + EXTRA];
    var start: nat := 0;
    outlength, parts := 0, [];
    EncodingStarts(out[..0], data);
    while |data| - start > 2048
      invariant start <= |data| && fresh(out) && outlength <= out.Length
      invariant Encoding(out[..outlength], parts, data, start)
    {
      var len: nat :| 100 <= len < 4196;
      if len > |data| - start {
        len := |data| - start;
      }
      outlength, parts := EncodeNext(data, start, len, out, outlength, parts);
      start := start + len;
    }
    if |data| - start > 0 {
      outlength, parts := EncodeNext(data, start, |data| - start, out, outlength, parts);
      start := |data|;
    }
    EncodingEnds(out[..outlength], parts, data);
  }

  /** One record more. */
  method EncodeNext(data: seq<byte>, start: nat, len: nat, out: array<byte>, at: nat, ghost parts: seq<seq<byte>>)
    returns (at': nat, ghost parts': seq<seq<byte>>)
    requires start + len <= |data| <= MOST && at <= out.Length == |data| + EXTRA
    requires if |data| - start > 2048 then 100 <= len <= 4195 else 0 < len == |data| - start
    requires Encoding(out[..at], parts, data, start)
    modifies out
    ensures at' == at + len + 5 <= out.Length && Encoding(out[..at'], parts', data, start + len)
  {
    hide Encoding, Record;
    ghost var before, p := out[..at], data[start..start + len];
    EncodingRoom(before, parts, data, start, len);
    PackData(data[start..start + len], out, at);
    EncodingGrows(before, parts, data, start, len);
    at' := at + len + 5;
    parts' := parts + [p];
  }

  /** The encoders once the handshake is done: short data in place, longer data through a second buffer. */
  method Encode(buf: Buffer) returns (ghost parts: seq<seq<byte>>)
    requires buf.Valid() && buf.len <= MOST
    modifies buf, buf.data
    ensures buf.Valid() && (buf.data == old(buf.data) || fresh(buf.data))
    ensures Cut(parts, old(buf.Contents())) && buf.Contents() == Flatten(Records(parts))
  {
    hide Drawn, Flatten;
    ghost var data := buf.Contents();
    if buf.len < 1024 {
      EncodeInPlace(buf);
      parts := [data];
      One(data);
      One(Record(data));
      assert Records(parts) == [Record(data)];
    } else {
      var out, outlength;
      out, outlength, parts := EncodeLoop(buf.data[..buf.len]);
      if buf.data.Length < outlength {
        buf.Brealloc(outlength * 2, 0);
      }
      CopyInto(buf.data, 0, out[..outlength]);
      buf.len := outlength;
    }
  }

  lemma RangeAfter(a: array<byte>, k: nat, n: nat, data: seq<byte>)
    requires k + n <= a.Length && |data| == n && a[k..k + n] == data
    ensures a[k..][..n] == data
  {
  }

  lemma InPlace(a: array<byte>, n: nat, data: seq<byte>)
    requires n + 5 <= a.Length && |data| == n && a[..5] == [] + [0x17, 3, 3, Hi(n), Lo(n)] && a[5..][..n] == data
    ensures a[..n + 5] == Record(data)
  {
    assert a[..n + 5] == a[..5] + a[5..][..n];
  }

  method EncodeInPlace(buf: Buffer)
    requires buf.Valid() && buf.len < 1024
    modifies buf, buf.data
    ensures buf.Valid() && (buf.data == old(buf.data) || fresh(buf.data))
    ensures buf.Contents() == Record(old(buf.Contents()))
  {
    ghost var data := buf.Contents();
    var n := buf.len;
    if buf.data.Length < n + 5 {
      buf.Brealloc((n + 5) * 2, 0);
    }
    assert buf.data[0..0 + n] == data;
    Move(buf.data, 5, 0, n);
    RangeAfter(buf.data, 5, n, data);
    StoreHeader(buf.data, 0, n);
    InPlace(buf.data, n, data);
    buf.len := n + 5;
  }

  // ---- Decoding ----

  /** What a drain delivers after `out` was delivered before. */
  lemma PeelInside(strict: bool, x: seq<byte>)
    ensures Peel(strict, 0, x).Frame? ==> 5 <= Peel(strict, 0, x).length <= |x| && Peel(strict, 0, x).next == 0
    ensures Peel(strict, 0, x).Frame? ==> |Peel(strict, 0, x).payload| + 5 == Peel(strict, 0, x).length
    ensures |x| <= 5 ==> Drain(Peeler(strict), 0, x) == Drained(Ok, [], x, 0)
    ensures Peel(strict, 0, x) == Peeler(strict)(0, x)
  {
  }

  /** One turn of the decode loops: takes a record off `recv` and appends its payload at `n`. The server makes room for
      all that is left, the client for what it has. */
  method Turn(strict: bool, recv: Buffer, data: Buffer, n: nat) returns (p: Peeled<uint32>)
    requires recv.Valid() && recv != data && recv.data != data.data && recv.len > 5 && data.len <= data.data.Length
    requires n <= data.data.Length && (strict ==> n == 0 || n + recv.len <= data.data.Length)
    modifies recv, recv.data, data`data, data.data
    ensures recv.Valid() && recv.data == old(recv.data) && data.len <= data.data.Length
    ensures data.data == old(data.data) || fresh(data.data)
    ensures p == Peel(strict, 0, old(recv.Contents()))
    ensures recv.Contents() == if p.Frame? then old(recv.Contents())[p.length..] else old(recv.Contents())
    ensures p.Frame? ==>
              n + |p.payload| <= data.data.Length && data.data[..n + |p.payload|] == old(data.data[..n]) + p.payload
    ensures p.Frame? && strict ==> n + old(recv.len) <= data.data.Length
    ensures !p.Frame? ==> data.data == old(data.data) && data.data[..n] == old(data.data[..n])
  {
    ghost var x := recv.Contents();
    var r := recv.data;
    if r[0] != 0x17 || (strict && (r[1] != 3 || r[2] != 3)) {
      return Bad;
    }
    var size: nat := Word(r[3], r[4]);
    if size + 5 > recv.len {
      return More;
    }
    RangeOfPrefix(r, recv.len, 5, size + 5);
    p := Frame(size + 5, r[5..size + 5], 0);
    Append(data, n, r[5..size + 5], if strict then recv.len + size else n + size);
    Drop(recv, size + 5);
  }

  /** Appends a payload, after a reallocation to twice what is needed. */
  method Append(data: Buffer, n: nat, p: seq<byte>, needed: nat)
    requires n <= data.data.Length && data.len <= data.data.Length && |p| <= needed
    requires needed <= data.data.Length ==> n + |p| <= data.data.Length
    requires data.data.Length < needed ==> n + |p| <= needed * 2
    modifies data`data, data.data
    ensures data.data == old(data.data) || fresh(data.data)
    ensures data.len <= data.data.Length && needed <= data.data.Length && old(data.data.Length) <= data.data.Length
    ensures n + |p| <= data.data.Length && data.data[..n + |p|] == old(data.data[..n]) + p
  {
    ghost var before := data.data[..n];
    if data.data.Length < needed {
      data.Brealloc(needed * 2, 0);
    }
    assert data.data[..n] == before;
    CopyInto(data.data, n, p);
  }

  method Drop(recv: Buffer, n: nat)
    requires recv.Valid() && n <= recv.len
    modifies recv, recv.data
    ensures recv.Valid() && recv.data == old(recv.data) && recv.Contents() == old(recv.Contents())[n..]
  {
    recv.len := recv.len - n;
    Move(recv.data, 0, n, recv.len);
  }

  /** The decode loops: `recv` holds what was left and what arrived, and the payloads replace the caller's bytes. */
  method DecodeLoop(strict: bool, recv: Buffer, data: Buffer) returns (status: Status)
    requires recv.Valid() && recv != data && recv.data != data.data && data.Valid()
    modifies recv, recv.data, data, data.data
    ensures recv.Valid() && recv.data == old(recv.data) && data.Valid()
    ensures data.data == old(data.data) || fresh(data.data)
    ensures var d := Drain(Peeler(strict), 0, old(recv.Contents()));
            && status == d.status && recv.Contents() == d.rest && (status == Ok ==> data.Contents() == d.out)
  {
    hide Peel, Peeler, Drain, Resume;
    ghost var all, peel := recv.Contents(), Peeler(strict);
    ghost var d := Drain(peel, 0, all);
    var n: nat := 0;
    data.len := 0;
    ResumeTwice([], [], d);
    while recv.len > 5
      invariant recv.Valid() && recv.data == old(recv.data) && recv.data != data.data && data.len <= data.data.Length
      invariant data.data == old(data.data) || fresh(data.data)
      invariant n <= data.data.Length && (strict ==> n == 0 || n + recv.len <= data.data.Length)
      invariant d == Resume(data.data[..n], Drain(peel, 0, recv.Contents()))
      decreases recv.len
    {
      ghost var x, out := recv.Contents(), data.data[..n];
      PeelInside(strict, x);
      DrainStep(strict, x);
      ResumeStatus(out, Drain(peel, 0, x));
      var p := Turn(strict, recv, data, n);
      if p == More {
        break;
      }
      if p == Bad {
        data.len := 0;
        return Rejected;
      }
      ResumeTwice(out, p.payload, Drain(peel, 0, recv.Contents()));
      n := n + |p.payload|;
    }
    data.len := n;
    status := Ok;
    PeelInside(strict, recv.Contents());
    DrainStep(strict, recv.Contents());
    ResumeEnd<uint32>(data.data[..n], recv.Contents(), 0);
  }

  /** The drain, one turn at a time. */
  lemma DrainStep(strict: bool, x: seq<byte>)
    ensures var d, p := Drain(Peeler(strict), 0, x), Peel(strict, 0, x);
            && (p.More? ==> d == Drained(Ok, [], x, 0)) && (p.Bad? ==> d == Drained(Rejected, [], x, 0)) && !p.Wild?
            && (p.Frame? ==> p.length <= |x| && d == Resume(p.payload, Drain(Peeler(strict), 0, x[p.length..])))
  {
    PeelInside(strict, x);
  }
}
