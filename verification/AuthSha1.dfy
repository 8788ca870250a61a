/** The data frames of auth_sha1_v2 and auth_sha1_v4 in auth.c: length, padding of up to 1024 bytes, payload, Adler-32.
    Version 4 adds two CRC bytes over the length. */
module AuthSha1 {
  import opened Bits
  import opened Sequences
  import opened Buffers
  import opened Framing
  import opened Reception
  import Crc32
  import Adler32

  datatype Version = V2 | V4

  const UNIT_SIZE: nat := 2000

  /** Where the padding starts. */
  function Start(v: Version): nat {
    if v.V2? then 2 else 4
  }

  // ---- Padding ----

  /** The longest padding that the sender can draw for a payload of this length. */
  function MaxPadding(dataLength: nat): (r: nat)
    ensures 1 <= r <= 0x400
  {
    if dataLength > 1300 then 1 else if dataLength > 400 then 0x80 else 0x400
  }

  /** The first padding bytes tell the length: one byte below 128, otherwise 0xFF and two bytes. */
  ghost predicate Padding(pad: seq<byte>) {
    if |pad| < 128 then |pad| >= 1 && pad[0] == |pad|
    else |pad| <= 0x400 && pad[0] == 0xFF && pad[1] == Hi(|pad|) && pad[2] == Lo(|pad|)
  }

  /** The offset of the payload that the receiver computes. */
  function PayloadStart(v: Version, x: seq<byte>): int
    requires |x| >= Start(v) + 3
  {
    var h := Start(v);
    if x[h] < 255 then x[h] + h else Word(x[h + 1], x[h + 2]) + h
  }

  // ---- Frames ----

  function LengthBytes(size: nat): seq<byte> {
    [Hi(size), Lo(size)]
  }

  /** Everything before the padding. */
  function Header(v: Version, size: nat): (r: seq<byte>)
    ensures |r| == Start(v)
  {
    var crc := Crc32.Crc(LengthBytes(size));
    LengthBytes(size) + if v.V2? then [] else [Lo(crc), Hi(crc)]
  }

  function Size(v: Version, padLength: nat, dataLength: nat): nat {
    Start(v) + padLength + dataLength + 4
  }

  /** The frame that auth_sha1_v2_pack_data or auth_sha1_v4_pack_data builds. */
  function Packed(v: Version, pad: seq<byte>, data: seq<byte>): (r: seq<byte>)
    ensures |r| == Size(v, |pad|, |data|)
  {
    Adler32.SealedAccepted(Header(v, Size(v, |pad|, |data|)) + pad + data);
    Adler32.Sealed(Header(v, Size(v, |pad|, |data|)) + pad + data)
  }

  /** One turn of the loop of post_decrypt. The receiver has no counter: its state is always 0. */
  function Peel(v: Version, s: uint32, x: seq<byte>): Peeled<uint32> {
    if |x| <= Start(v) then More
    else if v.V4? && Word(x[3], x[2]) != Crc32.Crc(x[..2]) % 0x1_0000 then Bad
    else
      var length := Word(x[0], x[1]);
      if length >= 8192 || length < 7 then Bad
      else if length > |x| then More
      else if !Adler32.Accepts(x[..length]) then Bad
      else
        var pos := PayloadStart(v, x);
        if length - pos - 4 < 0 then Wild
        else Frame(length, x[pos..length - 4], s)
  }

  function Peeler(v: Version): (uint32, seq<byte>) -> Peeled<uint32> {
    (s: uint32, x: seq<byte>) => Peel(v, s, x)
  }

  lemma PeelerIsPeel(v: Version, s: uint32, x: seq<byte>)
    ensures Peeler(v)(s, x) == Peel(v, s, x)
  {
  }

  lemma PeelSteadyAt(v: Version, s: uint32, x: seq<byte>, y: seq<byte>)
    requires !Peel(v, s, x).More?
    ensures Peel(v, s, x + y) == Peel(v, s, x)
  {
    PrefixOfConcat(x, y, 2);
    var length := Word(x[0], x[1]);
    if 7 <= length < 8192 && length <= |x| {
      PrefixOfConcat(x, y, length);
    }
  }

  lemma PeelerSteady(v: Version)
    ensures Steady(Peeler(v))
  {
    forall s, x, y | !Peeler(v)(s, x).More? ensures Peeler(v)(s, x + y) == Peeler(v)(s, x) {
      PeelSteadyAt(v, s, x, y);
    }
  }

  // ---- Frames that make the copy undefined ----

  /** A complete frame that passes all checks. */
  predicate Checked(v: Version, f: seq<byte>) {
    && 7 <= |f| < 8192 && Word(f[0], f[1]) == |f|
    && (v.V4? ==> Word(f[3], f[2]) == Crc32.Crc(f[..2]) % 0x1_0000)
    && Adler32.Accepts(f)
  }

  /** Its padding field puts the payload behind the frame. */
  predicate OverPadded(v: Version, f: seq<byte>) {
    Checked(v, f) && PayloadStart(v, f) > |f| - 4
  }

  /** The frames that are taken are the checked ones whose padding leaves room; the other checked ones break the
      receiver. */
  lemma TakenIffChecked(v: Version, s: uint32, x: seq<byte>)
    ensures Peel(v, s, x).Frame? && Peel(v, s, x).length == |x| <==> Checked(v, x) && !OverPadded(v, x)
    ensures OverPadded(v, x) ==> Peel(v, s, x).Wild?
    ensures OwnBytes(Peeler(v), s, x) && BreaksAt(Peeler(v), (s: uint32, f: seq<byte>) => OverPadded(v, f), s, x)
  {
    hide Crc32.Crc, Adler32.Accepts, Hi, Lo;
    if |x| > Start(v) {
      var length := Word(x[0], x[1]);
      if 7 <= length <= |x| {
        SameFields(v, x, length);
      }
      assert x[..|x|] == x;
    }
  }

  lemma SameFields(v: Version, x: seq<byte>, n: nat)
    requires 7 <= n <= |x|
    ensures var f := x[..n];
            && f[..n] == f && f[..2] == x[..2] && f[0] == x[0] && f[1] == x[1] && f[2] == x[2] && f[3] == x[3]
            && PayloadStart(v, f) == PayloadStart(v, x)
            && forall i, j :: 0 <= i <= j <= n ==> f[i..j] == x[i..j]
  {
  }

  /** Behind frames that the receiver takes stands a checked frame whose padding field puts the payload behind it. */
  ghost predicate HoldsOverPadded(v: Version, x: seq<byte>) {
    exists frames, w, s' :: Taken(Peeler(v), 0, frames, s') && OverPadded(v, w) && Flatten(frames) + w <= x
  }

  /** Over every stream, however it arrives, such a frame is exactly what makes the receiver's copy undefined. */
  lemma UndefinedIff(v: Version, pieces: seq<seq<byte>>)
    ensures Feed(Peeler(v), 0, [], pieces).status == Undefined <==> HoldsOverPadded(v, Flatten(pieces))
  {
    hide Peel, OverPadded, Flatten, Feed, Taken, OwnBytes, BreaksAt;
    var broken := (s: uint32, f: seq<byte>) => OverPadded(v, f);
    PeelerSteady(v);
    PeelOfNothing(v);
    forall s, x ensures OwnBytes(Peeler(v), s, x) && BreaksAt(Peeler(v), broken, s, x) {
      TakenIffChecked(v, s, x);
    }
    if Feed(Peeler(v), 0, [], pieces).status == Undefined {
      var frames, w, s' := BrokenBehind(Peeler(v), broken, 0, pieces);
      assert OverPadded(v, w) && HoldsOverPadded(v, Flatten(pieces));
    }
    if HoldsOverPadded(v, Flatten(pieces)) {
      var frames, w, s' :| Taken(Peeler(v), 0, frames, s') && OverPadded(v, w)
          && Flatten(frames) + w <= Flatten(pieces);
      TakenIffChecked(v, s', w);
      BrokenEndsIt(Peeler(v), 0, pieces, frames, w, s');
    }
  }

  /** Bytes that the receiver refuses: a wrong code of the length (version 4), a length out of range, or a complete
      frame with a wrong checksum. */
  predicate Refused(v: Version, z: seq<byte>) {
    |z| > Start(v) && var length := Word(z[0], z[1]);
                      || (v.V4? && Word(z[3], z[2]) != Crc32.Crc(z[..2]) % 0x1_0000)
                      || length < 7 || length >= 8192 || (length <= |z| && !Adler32.Accepts(z[..length]))
  }

  /** Over every stream, however it arrives, it is rejected exactly when such bytes follow frames that are taken. */
  lemma RejectedIff(v: Version, pieces: seq<seq<byte>>)
    ensures Feed(Peeler(v), 0, [], pieces).status == Rejected
       <==> HoldsRefused(Peeler(v), (s: uint32, z: seq<byte>) => Refused(v, z), 0, Flatten(pieces))
  {
    hide Feed, Flatten, OwnBytes, Crc32.Crc, Adler32.Accepts, Taken, PayloadStart;
    var refused := (s: uint32, z: seq<byte>) => Refused(v, z);
    PeelerSteady(v);
    PeelOfNothing(v);
    forall s, x ensures OwnBytes(Peeler(v), s, x) {
      TakenIffChecked(v, s, x);
    }
    RejectedExactly(Peeler(v), refused, 0, pieces);
  }

  lemma PeelOfNothing(v: Version)
    ensures Peeler(v)(0, []).More?
  {
  }

  /** The shortest frames of that kind: a padding field of 200 and nothing behind it. */
  function Short(v: Version): seq<byte> {
    Adler32.Sealed(Header(v, Start(v) + 5) + [200])
  }

  lemma OverPaddedExists(v: Version)
    ensures OverPadded(v, Short(v)) && Drain(Peeler(v), 0, Short(v)).status == Undefined
  {
    hide Crc32.Crc, Adler32.Accepts, Adler32.Adler, Crc32.LittleEndian;
    var head, f := Header(v, Start(v) + 5), Short(v);
    Adler32.SealedAccepted(head + [200]);
    assert f[..Start(v)] == head && f[Start(v)] == 200;
    WordOfBytes(Start(v) + 5);
    assert f[..2] == head[..2] == LengthBytes(Start(v) + 5);
    assert f[0] == f[..2][0] && f[1] == f[..2][1];
    if v.V4? {
      assert f[2] == head[2] && f[3] == head[3];
      LowWord(Crc32.Crc(LengthBytes(Start(v) + 5)));
    }
    assert f[..|f|] == f;
    assert Peel(v, 0, f) == Wild;
  }

  /** What the receiver sees of a packed frame once it has its header and the padding length. */
  lemma PackedFields(v: Version, pad: seq<byte>, data: seq<byte>, x: seq<byte>)
    requires Padding(pad) && 0 < |data| <= UNIT_SIZE
    requires |x| > Start(v) && x[..Start(v)] == Header(v, Size(v, |pad|, |data|))
    ensures Word(x[0], x[1]) == Size(v, |pad|, |data|) && 7 <= Size(v, |pad|, |data|) < 8192
    ensures v.V4? ==> Word(x[3], x[2]) == Crc32.Crc(x[..2]) % 0x1_0000
  {
    hide Crc32.Crc;
    var size := Size(v, |pad|, |data|);
    WordOfBytes(size);
    assert x[..2] == x[..Start(v)][..2] == LengthBytes(size);
    assert x[0] == x[..2][0] && x[1] == x[..2][1];
    if v.V4? {
      assert x[2] == x[..4][2] && x[3] == x[..4][3];
      LowWord(Crc32.Crc(LengthBytes(size)));
    }
  }

  lemma LowWord(x: nat)
    ensures Word(Hi(x), Lo(x)) == x % 0x1_0000
  {
  }

  /** The receiver finds the end of the padding. */
  lemma PaddingFound(v: Version, pad: seq<byte>, x: seq<byte>)
    requires Padding(pad) && |x| >= Start(v) + |pad| && |x| >= Start(v) + 3
    requires forall i :: 0 <= i < |pad| ==> x[Start(v) + i] == pad[i]
    ensures PayloadStart(v, x) == Start(v) + |pad|
  {
    assert x[Start(v) + 0] == pad[0];
    if |pad| >= 128 {
      WordOfBytes(|pad|);
      assert x[Start(v) + 1] == pad[1] && x[Start(v) + 2] == pad[2];
    }
  }

  lemma WholeFrame(v: Version, s: uint32, pad: seq<byte>, data: seq<byte>, z: seq<byte>)
    requires Padding(pad) && 0 < |data| <= UNIT_SIZE
    ensures Peel(v, s, Packed(v, pad, data) + z) == Frame(|Packed(v, pad, data)|, data, s)
  {
    hide Padding, PayloadStart, Header, Adler32.Accepts, Crc32.Crc, Adler32.Adler, Crc32.LittleEndian;
    var f := Packed(v, pad, data);
    var body := Header(v, |f|) + pad + data;
    var x := f + z;
    Adler32.SealedAccepted(body);
    Layout(Header(v, |f|), pad, data, f[|body|..], z);
    assert f == body + f[|body|..];
    assert x[..Start(v)] == Header(v, |f|);
    PackedFields(v, pad, data, x);
    PaddingFound(v, pad, x);
  }

  /** The receiver takes a packed frame off the stream and waits for every shorter prefix of it. */
  lemma PackedCarries(v: Version, s: uint32, pad: seq<byte>, data: seq<byte>)
    requires Padding(pad) && 0 < |data| <= UNIT_SIZE
    ensures Carries(Peeler(v), s, Packed(v, pad, data), data, s)
  {
    var f := Packed(v, pad, data);
    forall z ensures Peeler(v)(s, f + z) == Frame(|f|, data, s) {
      WholeFrame(v, s, pad, data, z);
    }
    assert f + [] == f;
    forall k | 0 <= k < |f| ensures Peeler(v)(s, f[..k]) == More {
      if k > Start(v) {
        assert f[..k][..Start(v)] == Header(v, |f|);
        PackedFields(v, pad, data, f[..k]);
      }
    }
  }

  /** `frames` are packings of `units`, each with some padding. */
  ghost predicate AllPacked(v: Version, frames: seq<seq<byte>>, pads: seq<seq<byte>>, units: seq<seq<byte>>) {
    && |frames| == |units| == |pads|
    && forall i :: 0 <= i < |units| ==> Padding(pads[i]) && frames[i] == Packed(v, pads[i], units[i])
  }

  lemma PackedIsStream(v: Version, frames: seq<seq<byte>>, pads: seq<seq<byte>>, units: seq<seq<byte>>)
    requires AllPacked(v, frames, pads, units) && forall i :: 0 <= i < |units| ==> 0 < |units[i]| <= UNIT_SIZE
    ensures Stream(Peeler(v), Zeros(|frames| + 1), frames, units)
  {
    var states := Zeros(|frames| + 1);
    forall i | 0 <= i < |frames| ensures Carries(Peeler(v), states[i], frames[i], units[i], states[i + 1]) {
      PackedCarries(v, 0, pads[i], units[i]);
    }
  }

  /** Frames for any units, with any padding, cut into any pieces: the payload bytes come out in order. */
  lemma Recovered(v: Version, frames: seq<seq<byte>>, pads: seq<seq<byte>>, units: seq<seq<byte>>,
      pieces: seq<seq<byte>>)
    requires AllPacked(v, frames, pads, units) && forall i :: 0 <= i < |units| ==> 0 < |units[i]| <= UNIT_SIZE
    requires Flatten(pieces) == Flatten(frames)
    ensures Feed(Peeler(v), 0, [], pieces) == Drained(Ok, Flatten(units), [], 0)
  {
    PackedIsStream(v, frames, pads, units);
    PeelerSteady(v);
    StreamDelivered(Peeler(v), Zeros(|frames| + 1), frames, units, pieces);
  }

  /** What one pre_encrypt call packed comes back as the plaintext, for any pieces. */
  lemma PreEncryptRecovered(v: Version, plaindata: seq<byte>, frames: seq<seq<byte>>, pads: seq<seq<byte>>,
      pieces: seq<seq<byte>>)
    requires AllPacked(v, frames, pads, Chop(plaindata, UNIT_SIZE)) && Flatten(pieces) == Flatten(frames)
    ensures Feed(Peeler(v), 0, [], pieces) == Drained(Ok, plaindata, [], 0)
  {
    Recovered(v, frames, pads, Chop(plaindata, UNIT_SIZE), pieces);
    ChopLosesNothing(plaindata, UNIT_SIZE);
  }

  /** At every moment of a reception the receiver has delivered the complete frames and keeps part of the next. */
  lemma KeepsPartOfOneFrame(v: Version, frames: seq<seq<byte>>, pads: seq<seq<byte>>, units: seq<seq<byte>>,
      received: seq<byte>)
    returns (n: nat)
    requires AllPacked(v, frames, pads, units) && forall i :: 0 <= i < |units| ==> 0 < |units[i]| <= UNIT_SIZE
    requires received <= Flatten(frames)
    ensures n <= |frames| && Drain(Peeler(v), 0, received).status == Ok
    ensures Drain(Peeler(v), 0, received).out == Flatten(units[..n])
    ensures var rest := Drain(Peeler(v), 0, received).rest; rest == [] || (n < |frames| && rest < frames[n])
  {
    PackedIsStream(v, frames, pads, units);
    n := PrefixDelivered(Peeler(v), Zeros(|frames| + 1), frames, units, received);
  }

  // ---- The sender ----

  method StoreHeader(v: Version, table: array<uint32>, out: array<byte>, at: nat, size: nat)
    requires Crc32.TableReady(table) && table as object != out && at + 4 <= out.Length
    modifies out
    ensures out[..] == old(out[..at]) + Header(v, size) + old(out[at + Start(v)..])
  {
    hide Crc32.Crc;
    out[at] := Hi(size);
    out[at + 1] := Lo(size);
    if v == V4 {
      assert out[at..at + 2] == LengthBytes(size);
      var crc := Crc32.Checksum(table, out, at, 2);
      out[at + 2] := Lo(crc);
      out[at + 3] := Hi(crc);
    }
  }

  /** Stores the padding length; the other padding bytes are left as they are. */
  method StorePadding(out: array<byte>, at: nat, randLen: nat) returns (ghost pad: seq<byte>)
    requires 1 <= randLen <= 0x400 && at + randLen <= out.Length
    modifies out
    ensures |pad| == randLen && Padding(pad)
    ensures out[..] == old(out[..at]) + pad + old(out[at + randLen..])
  {
    if randLen < 128 {
      out[at] := randLen;
    } else {
      out[at] := 0xFF;
      out[at + 1] := Hi(randLen);
      out[at + 2] := Lo(randLen);
    }
    pad := out[at..at + randLen];
  }

  /** The frame without its checksum. */
  method PackBody(v: Version, table: array<uint32>, data: seq<byte>, out: array<byte>, at: nat, randLen: nat)
    returns (ghost pad: seq<byte>)
    requires Crc32.TableReady(table) && table as object != out && 1 <= randLen <= 0x400
    requires at + Size(v, randLen, |data|) <= out.Length
    modifies out
    ensures |pad| == randLen && Padding(pad)
    ensures var body := Header(v, Size(v, randLen, |data|)) + pad + data;
            out[..] == old(out[..at]) + body + old(out[at + |body|..])
  {
    hide Header, Padding, Crc32.TableReady;
    var outSize := Size(v, randLen, |data|);
    ghost var head := Header(v, outSize);
    ghost var s0 := out[..];
    StoreHeader(v, table, out, at, outSize);
    ghost var s1 := out[..];
    pad := StorePadding(out, at + Start(v), randLen);
    ghost var s2 := out[..];
    AdjacentWrites(s0, s1, s2, at, head, pad);
    CopyInto(out, at + Start(v) + randLen, data);
    AdjacentWrites(s0, s2, out[..], at, head + pad, data);
  }

  /** auth_sha1_v2_pack_data and auth_sha1_v4_pack_data; the padding length is the random draw. */
  method PackData(v: Version, table: array<uint32>, data: seq<byte>, out: array<byte>, at: nat)
    returns (outSize: nat, ghost pad: seq<byte>)
    requires Crc32.TableReady(table) && table as object != out
    requires 0 < |data| <= UNIT_SIZE && at + |data| + 1032 <= out.Length
    modifies out
    ensures Padding(pad) && |pad| <= MaxPadding(|data|)
    ensures outSize == |Packed(v, pad, data)| <= |data| + 1032
    ensures out[..] == old(out[..at]) + Packed(v, pad, data) + old(out[at + outSize..])
  {
    hide Header, Padding, Adler32.Adler, Crc32.TableReady;
    var limit := MaxPadding(|data|);
    var randLen: nat :| 1 <= randLen <= limit;
    outSize := Size(v, randLen, |data|);
    ghost var s0 := out[..];
    pad := PackBody(v, table, data, out, at, randLen);
    WriteInPlace(s0, out[..], at, Header(v, outSize) + pad + data, 4);
    Adler32.FillAdler32(out, at, outSize);
  }

  /** What the output buffer holds while a pre_encrypt loop runs. */
  ghost predicate Packing(v: Version, out: seq<byte>, frames: seq<seq<byte>>, pads: seq<seq<byte>>,
      done: seq<seq<byte>>) {
    AllPacked(v, frames, pads, done) && out == Flatten(frames)
  }

  lemma PackingGrows(v: Version, out: seq<byte>, frames: seq<seq<byte>>, pads: seq<seq<byte>>, done: seq<seq<byte>>,
                     pad: seq<byte>, data: seq<byte>)
    requires Packing(v, out, frames, pads, done) && Padding(pad)
    ensures Packing(v, out + Packed(v, pad, data), frames + [Packed(v, pad, data)], pads + [pad], done + [data])
  {
    FlattenConcat(frames, [Packed(v, pad, data)]);
    assert [Packed(v, pad, data)][1..] == [];
    assert Flatten([Packed(v, pad, data)]) == Packed(v, pad, data) + [];
  }

  lemma NothingPacked(v: Version, out: seq<byte>)
    requires out == []
    ensures Packing(v, out, [], [], [])
  {
  }

  /** Packs the next unit behind the frames that are there. */
  method PackNext(v: Version, table: array<uint32>, unit: seq<byte>, out: array<byte>, at: nat,
                  ghost frames: seq<seq<byte>>, ghost pads: seq<seq<byte>>, ghost done: seq<seq<byte>>)
    returns (at': nat, ghost frame: seq<byte>, ghost pad: seq<byte>)
    requires Crc32.TableReady(table) && table as object != out
    requires 0 < |unit| <= UNIT_SIZE && at + |unit| + 1032 <= out.Length && Packing(v, out[..at], frames, pads, done)
    modifies out
    ensures at' <= at + |unit| + 1032 && at' <= out.Length
    ensures Packing(v, out[..at'], frames + [frame], pads + [pad], done + [unit])
  {
    hide Packed, Padding, Packing;
    var packLen;
    packLen, pad := PackData(v, table, unit, out, at);
    frame := Packed(v, pad, unit);
    at' := at + packLen;
    PackingGrows(v, old(out[..at]), frames, pads, done, pad, unit);
    assert out[..at'] == old(out[..at]) + frame;
  }

  /** auth_sha1_v2_client_pre_encrypt and auth_sha1_v4_client_pre_encrypt once the header packet is sent.
      Twice the length plus 4096 is room enough. */
  method PreEncrypt(v: Version, table: array<uint32>, plaindata: seq<byte>)
    returns (result: seq<byte>, ghost frames: seq<seq<byte>>, ghost pads: seq<seq<byte>>)
    requires Crc32.TableReady(table)
    ensures AllPacked(v, frames, pads, Chop(plaindata, UNIT_SIZE)) && result == Flatten(frames)
    ensures |result| <= 2 * |plaindata| + 4096
    ensures forall pieces {:trigger Flatten(pieces)} ::
              Flatten(pieces) == result ==> Feed(Peeler(v), 0, [], pieces) == Drained(Ok, plaindata, [], 0)
  {
    hide AllPacked, Feed, Peel, Flatten;
    var outBuffer := new byte[|plaindata| * 2 + 4096];
    var data, buffer: nat := plaindata, 0;
    ghost var done: seq<seq<byte>>, frame, pad := [], [], [];
    frames, pads := [], [];
    NothingPacked(v, outBuffer[..0]);
    while |data| > UNIT_SIZE
      invariant buffer + 2 * |data| + 4096 <= outBuffer.Length && fresh(outBuffer)
      invariant Packing(v, outBuffer[..buffer], frames, pads, done)
      invariant done + Chop(data, UNIT_SIZE) == Chop(plaindata, UNIT_SIZE)
      decreases |data|
    {
      ghost var unit := data[..UNIT_SIZE];
      Associate(done, [unit], Chop(data[UNIT_SIZE..], UNIT_SIZE));
      buffer, frame, pad := PackNext(v, table, data[..UNIT_SIZE], outBuffer, buffer, frames, pads, done);
      frames, pads, done := frames + [frame], pads + [pad], done + [unit];
      data := data[UNIT_SIZE..];
    }
    if |data| > 0 {
      buffer, frame, pad := PackNext(v, table, data, outBuffer, buffer, frames, pads, done);
      frames, pads, done := frames + [frame], pads + [pad], done + [data];
    }
    assert done == Chop(plaindata, UNIT_SIZE);
    result := outBuffer[..buffer];
    AlwaysRecovered(v, plaindata, frames, pads);
  }

  lemma AlwaysRecovered(v: Version, plaindata: seq<byte>, frames: seq<seq<byte>>, pads: seq<seq<byte>>)
    requires AllPacked(v, frames, pads, Chop(plaindata, UNIT_SIZE))
    ensures forall pieces {:trigger Flatten(pieces)} ::
              Flatten(pieces) == Flatten(frames) ==> Feed(Peeler(v), 0, [], pieces) == Drained(Ok, plaindata, [], 0)
  {
    forall pieces: seq<seq<byte>> | Flatten(pieces) == Flatten(frames)
      ensures Feed(Peeler(v), 0, [], pieces) == Drained(Ok, plaindata, [], 0)
    {
      PreEncryptRecovered(v, plaindata, frames, pads, pieces);
    }
  }

  // ---- The receiver ----

  /** The longest frame that the sender builds. */
  const LONGEST := UNIT_SIZE + 1032

  /** Pieces that leave room for one such frame always fit the receive buffer. */
  lemma PiecesFit(v: Version, frames: seq<seq<byte>>, pads: seq<seq<byte>>, units: seq<seq<byte>>,
      pieces: seq<seq<byte>>)
    requires AllPacked(v, frames, pads, units) && forall i :: 0 <= i < |units| ==> 0 < |units[i]| <= UNIT_SIZE
    requires Flatten(pieces) <= Flatten(frames)
        && forall i :: 0 <= i < |pieces| ==> |pieces[i]| <= BUFFER_SIZE - LONGEST
    ensures Fits(Peeler(v), 0, [], pieces, BUFFER_SIZE)
  {
    hide Peel, Flatten, Packed;
    PackedIsStream(v, frames, pads, units);
    PeelerSteady(v);
    assert forall s :: Peeler(v)(s, []).More? by { NothingAtAll(v); }
    assert [] + Flatten(pieces) == Flatten(pieces);
    SmallPiecesFit(Peeler(v), Zeros(|frames| + 1), frames, units, [], 0, [], pieces, BUFFER_SIZE, LONGEST);
  }

  lemma NothingAtAll(v: Version)
    ensures forall s :: Peeler(v)(s, []).More?
  {
  }

  /** One call per piece, for pieces that fit the buffer: the receiver delivers what the whole stream carries. */
  method ReceiveAll(v: Version, table: array<uint32>, local: ReceiveBuffer, pieces: seq<seq<byte>>)
    returns (status: Status, out: seq<byte>)
    requires local.Valid() && Crc32.TableReady(table) && table as object != local.data && local.Contents() == []
    requires Fits(Peeler(v), 0, [], pieces, BUFFER_SIZE)
    modifies local, local.data
    ensures local.Valid()
    ensures status == Feed(Peeler(v), 0, [], pieces).status
    ensures status == Ok ==>
              out == Feed(Peeler(v), 0, [], pieces).out && local.Contents() == Feed(Peeler(v), 0, [], pieces).rest
  {
    out := [];
    for i := 0 to |pieces|
      invariant local.Valid() && Crc32.TableReady(table)
      invariant Fits(Peeler(v), 0, local.Contents(), pieces[i..], BUFFER_SIZE)
      invariant Feed(Peeler(v), 0, [], pieces) == Resume(out, Feed(Peeler(v), 0, local.Contents(), pieces[i..]))
    {
      hide Peel;
      ghost var x := local.Contents() + pieces[i];
      ghost var more := pieces[i..];
      assert more[0] == pieces[i] && more[1..] == pieces[i + 1..];
      var more', payload := PostDecrypt(v, table, local, pieces[i]);
      StateIsZero(v, x);
      if more' != Ok {
        return more', [];
      }
      Associate(out, payload, Feed(Peeler(v), 0, local.Contents(), pieces[i + 1..]).out);
      out := out + payload;
    }
    status := Ok;
  }

  lemma {:induction false} StateIsZero(v: Version, x: seq<byte>)
    ensures Drain(Peeler(v), 0, x).state == 0
    decreases |x|
  {
    PeelInside(v, 0, x);
    if Peeler(v)(0, x).Frame? {
      StateIsZero(v, x[Peeler(v)(0, x).length..]);
    }
  }

  /** One turn of the loops of auth_sha1_v2_client_post_decrypt and auth_sha1_v4_client_post_decrypt. */
  method Turn(v: Version, table: array<uint32>, local: ReceiveBuffer) returns (p: Peeled<uint32>)
    requires local.Valid() && Crc32.TableReady(table) && local.size > Start(v)
    modifies local, local.data
    ensures local.Valid() && p == Peel(v, 0, old(local.Contents()))
    ensures local.Contents() == Remaining(p, old(local.Contents()))
  {
    hide Crc32.Crc, Adler32.Accepts, Crc32.TableReady;
    ghost var x := local.Contents();
    var recv := local.data;
    if v == V4 {
      var crc := Crc32.Checksum(table, recv, 0, 2);
      assert x[..2] == recv[0..0 + 2];
      if Word(recv[3], recv[2]) != crc % 0x1_0000 {
        local.Clear();
        return Bad;
      }
    }
    p := TurnBody(v, local);
  }

  /** The part of the turn after the check of the length bytes. */
  method TurnBody(v: Version, local: ReceiveBuffer) returns (p: Peeled<uint32>)
    requires local.Valid() && local.size > Start(v)
    requires var x := local.Contents(); v.V4? ==> Word(x[3], x[2]) == Crc32.Crc(x[..2]) % 0x1_0000
    modifies local, local.data
    ensures local.Valid() && p == Peel(v, 0, old(local.Contents()))
    ensures local.Contents() == Remaining(p, old(local.Contents()))
  {
    hide Crc32.Crc, Adler32.Accepts, Adler32.Adler, Adler32.FromLittleEndian, Hi, Lo;
    ghost var x := local.Contents();
    var recv := local.data;
    var length: nat := Word(recv[0], recv[1]);
    if length >= 8192 || length < 7 {
      local.Clear();
      return Bad;
    }
    if length > local.size {
      return More;
    }
    var ok := Adler32.CheckAdler32(recv, length);
    PrefixOfPrefix(recv, local.size, length);
    if !ok {
      local.Clear();
      return Bad;
    }
    p := TurnEnd(v, local, length);
  }

  lemma PrefixOfPrefix(buf: array<byte>, size: nat, n: nat)
    requires n <= size <= buf.Length
    ensures buf[..size][..n] == buf[..n]
  {
  }

  /** The part of the turn after both checks. */
  method TurnEnd(v: Version, local: ReceiveBuffer, length: nat) returns (p: Peeled<uint32>)
    requires local.Valid() && 7 <= length <= local.size && local.size > Start(v)
    requires var x := local.Contents();
             && length == Word(x[0], x[1]) < 8192 && Adler32.Accepts(x[..length])
             && (v.V4? ==> Word(x[3], x[2]) == Crc32.Crc(x[..2]) % 0x1_0000)
    modifies local, local.data
    ensures local.Valid() && p == Peel(v, 0, old(local.Contents()))
    ensures local.Contents() == Remaining(p, old(local.Contents()))
  {
    hide Crc32.Crc, Adler32.Accepts, Hi, Lo;
    ghost var x := local.Contents();
    var recv := local.data;
    var pos := recv[Start(v)] as int;
    if pos < 255 {
      pos := pos + Start(v);
    } else {
      pos := Word(recv[Start(v) + 1], recv[Start(v) + 2]) + Start(v);
    }
    assert pos == PayloadStart(v, x);
    var dataSize := length - pos - 4;
    if dataSize < 0 {
      return Wild;
    }
    p := Frame(length, recv[pos..pos + dataSize], 0);
    RangeOfPrefix(recv, local.size, pos, length - 4);
    local.Consume(length);
  }

  lemma PeelInside(v: Version, s: uint32, x: seq<byte>)
    ensures Peel(v, s, x).Frame? ==> 0 < Peel(v, s, x).length <= |x| && Peel(v, s, x).next == s
  {
  }

  /** auth_sha1_v2_client_post_decrypt and auth_sha1_v4_client_post_decrypt */
  method PostDecrypt(v: Version, table: array<uint32>, local: ReceiveBuffer, plaindata: seq<byte>)
    returns (status: Status, out: seq<byte>)
    requires local.Valid() && Crc32.TableReady(table) && table as object != local.data
    modifies local, local.data
    ensures local.Valid()
    ensures |old(local.Contents())| + |plaindata| > BUFFER_SIZE ==>
              status == Rejected && out == [] && local.Contents() == old(local.Contents())
    ensures |old(local.Contents())| + |plaindata| <= BUFFER_SIZE ==>
              Answers(Drain(Peeler(v), 0, old(local.Contents()) + plaindata), status, out, local.Contents())
  {
    hide Peel;
    out := [];
    if local.size + |plaindata| > BUFFER_SIZE {
      return Rejected, [];
    }
    local.Append(plaindata);
    ghost var all := local.Contents();
    while local.size > Start(v)
      invariant local.Valid() && Crc32.TableReady(table)
      invariant Drain(Peeler(v), 0, all) == Resume(out, Drain(Peeler(v), 0, local.Contents()))
      decreases local.size
    {
      ghost var x := local.Contents();
      var p := Turn(v, table, local);
      PeelerIsPeel(v, 0, x);
      match p
      case More => break;
      case Bad => return Rejected, [];
      case Wild => return Undefined, [];
      case Frame(n, payload, _) =>
        PeelInside(v, 0, x);
        Associate(out, payload, Drain(Peeler(v), 0, x[n..]).out);
        out := out + payload;
    }
    TooShort(v, local.Contents());
    status := Ok;
  }

  lemma TooShort(v: Version, x: seq<byte>)
    ensures |x| <= Start(v) ==> Drain(Peeler(v), 0, x) == Drained(Ok, [], x, 0)
  {
  }
}
