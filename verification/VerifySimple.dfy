/** The verify_simple framing of verify.c: length, padding, payload, CRC-32. */
module VerifySimple {
  import opened Bits
  import opened Sequences
  import opened Framing
  import opened Buffers
  import opened Reception
  import Crc32

  const UNIT_SIZE: nat := 2000

  /** recv_buffer[2 + pad .. length - 4] */
  function Payload(x: seq<byte>, length: nat): seq<byte>
    requires 3 <= length <= |x| && 2 + x[2] as int <= length - 4
  {
    x[2 + x[2]..length - 4]
  }

  /** One turn of the loop of verify_simple_server_post_decrypt. The receiver has no counter: its state is always 0. */
  function Peel(s: uint32, x: seq<byte>): Peeled<uint32> {
    if |x| <= 2 then More
    else
      var length := Word(x[0], x[1]);
      if length >= 8192 || length < 7 then Bad
      else if length > |x| then More
      else if Crc32.Crc(x[..length]) != 0xFFFF_FFFF then Bad
      else if length - x[2] - 6 < 0 then Wild
      else Frame(length, Payload(x, length), s)
  }

  lemma PeelSteady()
    ensures Steady(Peel)
  {
    forall s, x, y | !Peel(s, x).More? ensures Peel(s, x + y) == Peel(s, x) {
      PeelSteadyAt(s, x, y);
    }
  }

  lemma PeelSteadyAt(s: uint32, x: seq<byte>, y: seq<byte>)
    requires !Peel(s, x).More?
    ensures Peel(s, x + y) == Peel(s, x)
  {
    var length := Word(x[0], x[1]);
    if 7 <= length < 8192 {
      assert length <= |x|;
      PrefixOfConcat(x, y, length);
    }
  }

  // ---- Frames that make the copy undefined ----

  /** A complete frame that passes the checks of length and checksum. */
  predicate Checked(f: seq<byte>) {
    7 <= |f| < 8192 && Word(f[0], f[1]) == |f| && Crc32.Crc(f) == 0xFFFF_FFFF
  }

  /** Its padding field leaves no room for a payload. */
  predicate OverPadded(f: seq<byte>) {
    Checked(f) && f[2] > |f| - 6
  }

  /** The frames that are taken are the checked ones whose padding leaves room; the other checked ones break the
      receiver. */
  lemma TakenIffChecked(s: uint32, x: seq<byte>)
    ensures Peel(s, x).Frame? && Peel(s, x).length == |x| <==> Checked(x) && !OverPadded(x)
    ensures OverPadded(x) ==> Peel(s, x).Wild?
    ensures OwnBytes(Peel, s, x) && BreaksAt(Peel, (s: uint32, f: seq<byte>) => OverPadded(f), s, x)
  {
    hide Crc32.Crc;
    if |x| > 2 {
      var length := Word(x[0], x[1]);
      if 7 <= length <= |x| {
        var f := x[..length];
        assert f[..length] == f && f[0] == x[0] && f[1] == x[1] && f[2] == x[2];
        if length - x[2] - 6 >= 0 {
          assert Payload(f, length) == Payload(x, length);
        }
      }
      assert x[..|x|] == x;
    }
  }

  /** Behind frames that the receiver takes stands a complete frame with a right checksum and a padding field above its
      length less six. */
  ghost predicate HoldsOverPadded(x: seq<byte>) {
    exists frames, w, s' :: Taken(Peel, 0, frames, s') && OverPadded(w) && Flatten(frames) + w <= x
  }

  /** Over every stream, however it arrives, such a frame is exactly what makes the receiver's copy undefined. */
  lemma UndefinedIff(pieces: seq<seq<byte>>)
    ensures Feed(Peel, 0, [], pieces).status == Undefined <==> HoldsOverPadded(Flatten(pieces))
  {
    hide Peel, OverPadded, Flatten, Feed, Taken, OwnBytes, BreaksAt;
    var broken := (s: uint32, f: seq<byte>) => OverPadded(f);
    PeelSteady();
    PeelOfNothing();
    forall s, x ensures OwnBytes(Peel, s, x) && BreaksAt(Peel, broken, s, x) {
      TakenIffChecked(s, x);
    }
    if Feed(Peel, 0, [], pieces).status == Undefined {
      var frames, w, s' := BrokenBehind(Peel, broken, 0, pieces);
      assert OverPadded(w) && HoldsOverPadded(Flatten(pieces));
    }
    if HoldsOverPadded(Flatten(pieces)) {
      var frames, w, s' :| Taken(Peel, 0, frames, s') && OverPadded(w) && Flatten(frames) + w <= Flatten(pieces);
      TakenIffChecked(s', w);
      BrokenEndsIt(Peel, 0, pieces, frames, w, s');
    }
  }

  /** Bytes that the receiver refuses: a length out of range, or a complete frame with a wrong checksum. */
  predicate Refused(z: seq<byte>) {
    |z| > 2 && var length := Word(z[0], z[1]);
               length < 7 || length >= 8192 || (length <= |z| && Crc32.Crc(z[..length]) != 0xFFFF_FFFF)
  }

  /** Over every stream, however it arrives, it is rejected exactly when such bytes follow frames that are taken. */
  lemma RejectedIff(pieces: seq<seq<byte>>)
    ensures Feed(Peel, 0, [], pieces).status == Rejected
       <==> HoldsRefused(Peel, (s: uint32, z: seq<byte>) => Refused(z), 0, Flatten(pieces))
  {
    hide Feed, Flatten, OwnBytes, Crc32.Crc, Taken;
    var refused := (s: uint32, z: seq<byte>) => Refused(z);
    PeelSteady();
    PeelOfNothing();
    forall s, x ensures OwnBytes(Peel, s, x) {
      TakenIffChecked(s, x);
    }
    RejectedExactly(Peel, refused, 0, pieces);
  }

  lemma PeelOfNothing()
    ensures Peel(0, []).More?
  {
  }

  /** There are such frames: seven bytes are enough. */
  lemma OverPaddedExists()
    ensures OverPadded(Crc32.Sealed([0, 7, 255])) && Drain(Peel, 0, Crc32.Sealed([0, 7, 255])).status == Undefined
  {
    hide Crc32.Crc, Crc32.Register;
    var f := Crc32.Sealed([0, 7, 255]);
    Crc32.SealedAccepted([0, 7, 255]);
    assert f[..7] == f;
    assert Peel(0, f) == Wild;
  }

  // ---- Packing ----

  /** One padding: 1 to 16 bytes, the first of which tells how many. */
  ghost predicate Padding(pad: seq<byte>) {
    1 <= |pad| <= 16 && pad[0] == |pad|
  }

  /** `frames` are packings of `units`, each with some padding. */
  ghost predicate AllPacked(frames: seq<seq<byte>>, pads: seq<seq<byte>>, units: seq<seq<byte>>) {
    && |frames| == |units| == |pads|
    && forall i :: 0 <= i < |units| ==> Padding(pads[i]) && frames[i] == Packed(pads[i], units[i])
  }

  /** The frame that verify_simple_pack_data builds; the first padding byte is the padding length. */
  ghost function Packed(pad: seq<byte>, data: seq<byte>): seq<byte> {
    var size := |pad| + |data| + 6;
    Crc32.Sealed([Hi(size), Lo(size)] + pad + data)
  }

  lemma PackedLength(pad: seq<byte>, data: seq<byte>)
    ensures |Packed(pad, data)| == |pad| + |data| + 6
  {
  }

  lemma PackedPrefix(pad: seq<byte>, data: seq<byte>, k: nat, z: seq<byte>)
    requires Padding(pad) && 0 < |data| <= UNIT_SIZE
    requires 3 <= k <= |Packed(pad, data)|
    ensures var x := Packed(pad, data)[..k] + z;
            |x| >= 3 && Word(x[0], x[1]) == |Packed(pad, data)| && x[2] == |pad|
  {
    var size := |pad| + |data| + 6;
    PackedLength(pad, data);
    WordOfBytes(size);
    assert Packed(pad, data)[..3] == [Hi(size), Lo(size), pad[0]];
    assert (Packed(pad, data)[..k] + z)[..3] == Packed(pad, data)[..3];
  }

  /** The receiver takes a packed frame off the stream and waits for every shorter prefix of it. */
  lemma PackedCarries(s: uint32, pad: seq<byte>, data: seq<byte>)
    requires Padding(pad) && 0 < |data| <= UNIT_SIZE
    ensures Carries(Peel, s, Packed(pad, data), data, s)
  {
    var f := Packed(pad, data);
    var size := |pad| + |data| + 6;
    PackedLength(pad, data);
    forall z ensures Peel(s, f + z) == Frame(|f|, data, s) {
      PackedPrefix(pad, data, |f|, z);
      assert f[..|f|] == f;
      var x := f + z;
      assert x[..size] == f;
      Crc32.SealedAccepted([Hi(size), Lo(size)] + pad + data);
      assert x[2 + |pad|..size - 4] == data;
    }
    assert f + [] == f;
    forall k | 0 <= k < |f| ensures Peel(s, f[..k]) == More {
      if k >= 3 {
        PackedPrefix(pad, data, k, []);
        assert f[..k] + [] == f[..k];
      }
    }
  }

  /** The frame without its checksum, inside a buffer. */
  lemma BodyInPlace(before: seq<byte>, after: seq<byte>, at: nat, randLen: nat, data: seq<byte>)
    requires 1 <= randLen && at + randLen + 2 + |data| <= |before|
    requires after == before[..at + randLen + 2] + data + before[at + randLen + 2 + |data|..]
    ensures |after| == |before| && after[..at] == before[..at]
    ensures after[at..at + randLen + 2 + |data|]
         == [before[at], before[at + 1]] + before[at + 2..at + randLen + 2] + data
    ensures after[at + randLen + 2 + |data|..] == before[at + randLen + 2 + |data|..]
  {
  }

  /** verify_simple_pack_data; the padding length is the random draw, the other padding bytes are left as they are. */
  method PackData(table: array<uint32>, data: seq<byte>, out: array<byte>, at: nat)
    returns (outSize: nat, ghost pad: seq<byte>)
    requires Crc32.TableReady(table) && table as object != out
    requires 0 < |data| <= UNIT_SIZE && at + |data| + 22 <= out.Length
    modifies out
    ensures Padding(pad) && outSize == |Packed(pad, data)| <= |data| + 22
    ensures out[..] == old(out[..at]) + Packed(pad, data) + old(out[at + outSize..])
  {
    hide Crc32.Sealed;
    var randLen: nat :| 1 <= randLen <= 16;
    outSize := randLen + |data| + 6;
    PackedSize(randLen, data);
    ghost var was := out[..];
    out[at] := Hi(outSize);
    out[at + 1] := Lo(outSize);
    out[at + 2] := randLen;
    pad := out[at + 2..at + 2 + randLen];
    ghost var header := out[..];
    CopyInto(out, at + randLen + 2, data);
    BodyInPlace(header, out[..], at, randLen, data);
    assert header[..at] == was[..at] && header[at + outSize..] == was[at + outSize..];
    assert out[at + outSize..] == header[at + outSize..];
    Crc32.FillCrc32(table, out, at, outSize);
  }

  lemma PackedSize(randLen: nat, data: seq<byte>)
    ensures forall pad {:trigger Packed(pad, data)} :: |pad| == randLen ==> |Packed(pad, data)| == randLen + |data| + 6
  {
  }

  /** What the output buffer holds while a pre_encrypt loop runs. */
  ghost predicate Packing(out: seq<byte>, frames: seq<seq<byte>>, pads: seq<seq<byte>>, done: seq<seq<byte>>) {
    AllPacked(frames, pads, done) && out == Flatten(frames)
  }

  lemma PackingGrows(out: seq<byte>, frames: seq<seq<byte>>, pads: seq<seq<byte>>, done: seq<seq<byte>>,
                     pad: seq<byte>, data: seq<byte>)
    requires Packing(out, frames, pads, done) && Padding(pad)
    ensures Packing(out + Packed(pad, data), frames + [Packed(pad, data)], pads + [pad], done + [data])
  {
    FlattenConcat(frames, [Packed(pad, data)]);
    assert [Packed(pad, data)][1..] == [];
    assert Flatten([Packed(pad, data)]) == Packed(pad, data) + [];
  }

  /** Packs the next unit behind the frames that are there. */
  method PackNext(table: array<uint32>, unit: seq<byte>, out: array<byte>, at: nat,
                  ghost frames: seq<seq<byte>>, ghost pads: seq<seq<byte>>, ghost done: seq<seq<byte>>)
    returns (at': nat, ghost frame: seq<byte>, ghost pad: seq<byte>)
    requires Crc32.TableReady(table) && table as object != out
    requires 0 < |unit| <= UNIT_SIZE && at + |unit| + 22 <= out.Length && Packing(out[..at], frames, pads, done)
    modifies out
    ensures at' <= at + |unit| + 22 && at' <= out.Length
    ensures Packing(out[..at'], frames + [frame], pads + [pad], done + [unit])
  {
    var packLen;
    packLen, pad := PackData(table, unit, out, at);
    frame := Packed(pad, unit);
    at' := at + packLen;
    PackingGrows(old(out[..at]), frames, pads, done, pad, unit);
    assert out[..at'] == old(out[..at]) + frame;
  }

  /** verify_simple_client_pre_encrypt and verify_simple_server_pre_encrypt. Twice the length plus 32 is room enough. */
  method PreEncrypt(table: array<uint32>, plaindata: seq<byte>)
    returns (result: seq<byte>, ghost frames: seq<seq<byte>>, ghost pads: seq<seq<byte>>)
    requires Crc32.TableReady(table)
    ensures AllPacked(frames, pads, Chop(plaindata, UNIT_SIZE)) && result == Flatten(frames)
    ensures |result| <= 2 * |plaindata| + 32
    ensures forall pieces {:trigger Flatten(pieces)} ::
              Flatten(pieces) == result ==> Feed(Peel, 0, [], pieces) == Drained(Ok, plaindata, [], 0)
  {
    hide AllPacked, Feed, Peel, Flatten;
    var outBuffer := new byte[|plaindata| * 2 + 32];
    var data, buffer: nat := plaindata, 0;
    ghost var done: seq<seq<byte>>, frame, pad := [], [], [];
    frames, pads := [], [];
    NothingPacked(outBuffer[..0]);
    while |data| > UNIT_SIZE
      invariant buffer + 2 * |data| + 32 <= outBuffer.Length && fresh(outBuffer)
      invariant Packing(outBuffer[..buffer], frames, pads, done)
      invariant done + Chop(data, UNIT_SIZE) == Chop(plaindata, UNIT_SIZE)
      decreases |data|
    {
      ghost var unit := data[..UNIT_SIZE];
      Associate(done, [unit], Chop(data[UNIT_SIZE..], UNIT_SIZE));
      buffer, frame, pad := PackNext(table, data[..UNIT_SIZE], outBuffer, buffer, frames, pads, done);
      frames, pads, done := frames + [frame], pads + [pad], done + [unit];
      data := data[UNIT_SIZE..];
    }
    if |data| > 0 {
      buffer, frame, pad := PackNext(table, data, outBuffer, buffer, frames, pads, done);
      frames, pads, done := frames + [frame], pads + [pad], done + [data];
    }
    assert done == Chop(plaindata, UNIT_SIZE);
    result := outBuffer[..buffer];
    AlwaysRecovered(plaindata, frames, pads);
  }

  lemma AlwaysRecovered(plaindata: seq<byte>, frames: seq<seq<byte>>, pads: seq<seq<byte>>)
    requires AllPacked(frames, pads, Chop(plaindata, UNIT_SIZE))
    ensures forall pieces {:trigger Flatten(pieces)} ::
              Flatten(pieces) == Flatten(frames) ==> Feed(Peel, 0, [], pieces) == Drained(Ok, plaindata, [], 0)
  {
    forall pieces: seq<seq<byte>> | Flatten(pieces) == Flatten(frames)
      ensures Feed(Peel, 0, [], pieces) == Drained(Ok, plaindata, [], 0)
    {
      PreEncryptRecovered(plaindata, frames, pads, pieces);
    }
  }

  lemma NothingPacked(out: seq<byte>)
    requires out == []
    ensures Packing(out, [], [], [])
  {
  }

  // ---- The receiving side recovers what was packed ----

  lemma PackedIsStream(frames: seq<seq<byte>>, pads: seq<seq<byte>>, units: seq<seq<byte>>)
    requires AllPacked(frames, pads, units) && forall i :: 0 <= i < |units| ==> 0 < |units[i]| <= UNIT_SIZE
    ensures Stream(Peel, Zeros(|frames| + 1), frames, units)
  {
    var states := Zeros(|frames| + 1);
    forall i | 0 <= i < |frames| ensures Carries(Peel, states[i], frames[i], units[i], states[i + 1]) {
      PackedCarries(0, pads[i], units[i]);
    }
  }

  /** Frames for any units, with any padding, cut into any pieces: the payload bytes come out in order. */
  lemma Recovered(frames: seq<seq<byte>>, pads: seq<seq<byte>>, units: seq<seq<byte>>, pieces: seq<seq<byte>>)
    requires AllPacked(frames, pads, units) && forall i :: 0 <= i < |units| ==> 0 < |units[i]| <= UNIT_SIZE
    requires Flatten(pieces) == Flatten(frames)
    ensures Feed(Peel, 0, [], pieces) == Drained(Ok, Flatten(units), [], 0)
  {
    PackedIsStream(frames, pads, units);
    PeelSteady();
    StreamDelivered(Peel, Zeros(|frames| + 1), frames, units, pieces);
  }

  /** What one pre_encrypt call packed comes back as the plaintext, for any pieces. */
  lemma PreEncryptRecovered(plaindata: seq<byte>, frames: seq<seq<byte>>, pads: seq<seq<byte>>, pieces: seq<seq<byte>>)
    requires AllPacked(frames, pads, Chop(plaindata, UNIT_SIZE)) && Flatten(pieces) == Flatten(frames)
    ensures Feed(Peel, 0, [], pieces) == Drained(Ok, plaindata, [], 0)
  {
    Recovered(frames, pads, Chop(plaindata, UNIT_SIZE), pieces);
    ChopLosesNothing(plaindata, UNIT_SIZE);
  }

  /** At every moment of a reception the receiver has delivered the complete frames and keeps part of the next. */
  lemma KeepsPartOfOneFrame(frames: seq<seq<byte>>, pads: seq<seq<byte>>, units: seq<seq<byte>>, received: seq<byte>)
    returns (n: nat)
    requires AllPacked(frames, pads, units) && forall i :: 0 <= i < |units| ==> 0 < |units[i]| <= UNIT_SIZE
    requires received <= Flatten(frames)
    ensures n <= |frames| && Drain(Peel, 0, received).status == Ok
    ensures Drain(Peel, 0, received).out == Flatten(units[..n])
    ensures var rest := Drain(Peel, 0, received).rest; rest == [] || (n < |frames| && rest < frames[n])
  {
    PackedIsStream(frames, pads, units);
    n := PrefixDelivered(Peel, Zeros(|frames| + 1), frames, units, received);
  }

  /** The longest frame that the sender builds. */
  const LONGEST := UNIT_SIZE + 22

  /** Pieces that leave room for one such frame always fit the receive buffer. */
  lemma PiecesFit(frames: seq<seq<byte>>, pads: seq<seq<byte>>, units: seq<seq<byte>>, pieces: seq<seq<byte>>)
    requires AllPacked(frames, pads, units) && forall i :: 0 <= i < |units| ==> 0 < |units[i]| <= UNIT_SIZE
    requires Flatten(pieces) <= Flatten(frames)
        && forall i :: 0 <= i < |pieces| ==> |pieces[i]| <= BUFFER_SIZE - LONGEST
    ensures Fits(Peel, 0, [], pieces, BUFFER_SIZE)
  {
    hide Peel, Flatten, Packed;
    PackedIsStream(frames, pads, units);
    PeelSteady();
    PeelOfNothing();
    forall i | 0 <= i < |frames| ensures |frames[i]| <= LONGEST {
      PackedLength(pads[i], units[i]);
    }
    assert [] + Flatten(pieces) == Flatten(pieces);
    SmallPiecesFit(Peel, Zeros(|frames| + 1), frames, units, [], 0, [], pieces, BUFFER_SIZE, LONGEST);
  }

  /** One turn of the loop of verify_simple_server_post_decrypt. */
  method Turn(table: array<uint32>, local: ReceiveBuffer) returns (p: Peeled<uint32>)
    requires local.Valid() && Crc32.TableReady(table) && local.size > 2
    modifies local, local.data
    ensures local.Valid() && p == Peel(0, old(local.Contents()))
    ensures local.Contents() == Remaining(p, old(local.Contents()))
  {
    hide Crc32.Crc, Crc32.TableReady;
    ghost var x := local.Contents();
    var recv := local.data;
    var length: nat := Word(recv[0], recv[1]);
    if length >= 8192 || length < 7 {
      local.Clear();
      return Bad;
    }
    if length > local.size {
      return More;
    }
    var crc := Crc32.Checksum(table, recv, 0, length);
    assert x[..length] == recv[0..0 + length];
    if crc != 0xFFFF_FFFF {
      local.Clear();
      return Bad;
    }
    var dataSize := length - recv[2] - 6;
    if dataSize < 0 {
      return Wild;
    }
    p := Frame(length, recv[2 + recv[2]..2 + recv[2] + dataSize], 0);
    local.Consume(length);
  }

  /** verify_simple_client_post_decrypt and verify_simple_server_post_decrypt */
  method PostDecrypt(table: array<uint32>, local: ReceiveBuffer, plaindata: seq<byte>)
      returns (status: Status, out: seq<byte>)
    requires local.Valid() && Crc32.TableReady(table) && table as object != local.data
    modifies local, local.data
    ensures local.Valid()
    ensures |old(local.Contents())| + |plaindata| > BUFFER_SIZE ==>
              status == Rejected && out == [] && local.Contents() == old(local.Contents())
    ensures |old(local.Contents())| + |plaindata| <= BUFFER_SIZE ==>
              Answers(Drain(Peel, 0, old(local.Contents()) + plaindata), status, out, local.Contents())
  {
    out := [];
    if local.size + |plaindata| > BUFFER_SIZE {
      return Rejected, [];
    }
    local.Append(plaindata);
    ghost var all := local.Contents();
    while local.size > 2
      invariant local.Valid() && Crc32.TableReady(table)
      invariant Drain(Peel, 0, all) == Resume(out, Drain(Peel, 0, local.Contents()))
      decreases local.size
    {
      ghost var x := local.Contents();
      var p := Turn(table, local);
      match p
      case More => break;
      case Bad => return Rejected, [];
      case Wild => return Undefined, [];
      case Frame(n, payload, _) =>
        PeelInside(0, x);
        Associate(out, payload, Drain(Peel, 0, x[n..]).out);
        out := out + payload;
    }
    status := Ok;
  }

  lemma PeelInside(s: uint32, x: seq<byte>)
    ensures Peel(s, x).Frame? ==> 0 < Peel(s, x).length <= |x| && Peel(s, x).next == s
  {
  }

  /** One call per piece, for pieces that fit the buffer: the receiver delivers what the whole stream carries. */
  method ReceiveAll(table: array<uint32>, local: ReceiveBuffer, pieces: seq<seq<byte>>)
      returns (status: Status, out: seq<byte>)
    requires local.Valid() && Crc32.TableReady(table) && table as object != local.data && local.Contents() == []
    requires Fits(Peel, 0, [], pieces, BUFFER_SIZE)
    modifies local, local.data
    ensures local.Valid()
    ensures status == Feed(Peel, 0, [], pieces).status
    ensures status == Ok ==> out == Feed(Peel, 0, [], pieces).out && local.Contents() == Feed(Peel, 0, [], pieces).rest
  {
    out := [];
    for i := 0 to |pieces|
      invariant local.Valid() && Crc32.TableReady(table)
      invariant Fits(Peel, 0, local.Contents(), pieces[i..], BUFFER_SIZE)
      invariant Feed(Peel, 0, [], pieces) == Resume(out, Feed(Peel, 0, local.Contents(), pieces[i..]))
    {
      hide Peel;
      ghost var x := local.Contents() + pieces[i];
      ghost var more := pieces[i..];
      assert more[0] == pieces[i] && more[1..] == pieces[i + 1..];
      var more', payload := PostDecrypt(table, local, pieces[i]);
      StateIsZero(x);
      if more' != Ok {
        return more', [];
      }
      Associate(out, payload, Feed(Peel, 0, local.Contents(), pieces[i + 1..]).out);
      out := out + payload;
    }
    status := Ok;
  }

  lemma {:induction false} StateIsZero(x: seq<byte>)
    ensures Drain(Peel, 0, x).state == 0
    decreases |x|
  {
    PeelInside(0, x);
    if Peel(0, x).Frame? {
      StateIsZero(x[Peel(0, x).length..]);
    }
  }
}
