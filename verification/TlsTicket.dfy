/** The handshake of tls1.2_ticket.c: a client that queues data until the connection is open, and a server that opens
    it. */
module TlsTicket {
  import opened Bits
  import opened Sequences
  import opened Buffers
  import opened Framing
  import opened GrowingBuffer
  import opened Macs
  import opened TlsRecords
  import opened TlsHello

  // ---- The client's output ----

  /** handshake_status and send_buffer */
  datatype Client = Client(status: nat, queue: seq<byte>)

  /** One call of client_encode: the bytes to send, and the records they are cut into once the connection is open. */
  datatype Call = Call(data: seq<byte>, parts: seq<seq<byte>>)

  /** While the data is queued it becomes one record with a 16-bit length. */
  ghost predicate CallOk(c: Client, call: Call) {
    if c.status == 8 then Cut(call.parts, call.data) else call.parts == [call.data] && |call.data| < 0x1_0000
  }

  function Encoded(c: Client, call: Call, hello: seq<byte>, finish: seq<byte>): (Client, seq<byte>) {
    if c.status == 8 then (c, Flatten(Records(call.parts)))
    else
      var queue := c.queue + Record(call.data);
      if c.status == 0 then (Client(1, queue), hello)
      else if call.data == [] then (Client(8, []), finish + queue)
      else (Client(c.status, queue), [])
  }

  ghost predicate CallsOk(c: Client, calls: seq<Call>, hello: seq<byte>, finish: seq<byte>)
    decreases |calls|
  {
    calls == [] || (CallOk(c, calls[0]) && CallsOk(Encoded(c, calls[0], hello, finish).0, calls[1..], hello, finish))
  }

  /** The client after a run of calls, and everything it has sent. */
  function EncodedAll(c: Client, calls: seq<Call>, hello: seq<byte>, finish: seq<byte>): (Client, seq<byte>)
    decreases |calls|
  {
    if calls == [] then (c, [])
    else
      var (c', out) := Encoded(c, calls[0], hello, finish);
      var (c'', rest) := EncodedAll(c', calls[1..], hello, finish);
      (c'', out + rest)
  }

  /** All records of a run, in order. */
  function PartsOf(calls: seq<Call>): seq<seq<byte>> {
    if calls == [] then [] else calls[0].parts + PartsOf(calls[1..])
  }

  /** All bytes given to the client, in order. */
  function DataOf(calls: seq<Call>): seq<byte> {
    if calls == [] then [] else calls[0].data + DataOf(calls[1..])
  }

  /** The records carry the bytes. */
  lemma {:induction false} PartsCarryData(c: Client, calls: seq<Call>, hello: seq<byte>, finish: seq<byte>)
    requires CallsOk(c, calls, hello, finish)
    ensures Flatten(PartsOf(calls)) == DataOf(calls) && Short(PartsOf(calls))
    decreases |calls|
  {
    if calls != [] {
      var call := calls[0];
      PartsCarryData(Encoded(c, call, hello, finish).0, calls[1..], hello, finish);
      FlattenConcat(call.parts, PartsOf(calls[1..]));
      One(call.data);
      if c.status == 8 {
        CutCarries(call.parts, call.data);
      }
    }
  }

  /** Once open, the client sends records and nothing else. */
  lemma {:induction false} OpenRun(c: Client, calls: seq<Call>, hello: seq<byte>, finish: seq<byte>)
    requires c.status == 8 && CallsOk(c, calls, hello, finish)
    ensures EncodedAll(c, calls, hello, finish) == (c, Flatten(Records(PartsOf(calls))))
    decreases |calls|
  {
    if calls != [] {
      OpenRun(c, calls[1..], hello, finish);
      RecordsConcat(calls[0].parts, PartsOf(calls[1..]));
    }
  }

  /** While it waits, the client sends nothing; the finish message brings the whole queue. */
  lemma {:induction false} WaitingRun(c: Client, calls: seq<Call>, hello: seq<byte>, finish: seq<byte>)
    requires c.status == 1 && CallsOk(c, calls, hello, finish)
    ensures var (c', out) := EncodedAll(c, calls, hello, finish);
            && (c'.status == 1 || c'.status == 8)
            && (c'.status == 1 ==> out == [] && c'.queue == c.queue + Flatten(Records(PartsOf(calls))))
            && (c'.status == 8 ==> out == finish + (c.queue + Flatten(Records(PartsOf(calls)))))
    decreases |calls|
  {
    if calls == [] {
      assert c.queue + Flatten(Records([])) == c.queue;
    } else {
      var call := calls[0];
      var (c', out) := Encoded(c, call, hello, finish);
      var later := Flatten(Records(PartsOf(calls[1..])));
      RecordsConcat(call.parts, PartsOf(calls[1..]));
      OneRecord(call.data);
      Associate(c.queue, Record(call.data), later);
      if call.data == [] {
        OpenRun(c', calls[1..], hello, finish);
        Associate(finish, c.queue + Record(call.data), later);
      } else {
        WaitingRun(c', calls[1..], hello, finish);
      }
    }
  }

  lemma OneRecord(p: seq<byte>)
    ensures Flatten(Records([p])) == Record(p)
  {
    assert Records([p]) == [Record(p)];
    One(Record(p));
  }

  /** Every run of a fresh client: nothing, or the hello, or the hello, the finish message and the records of all bytes
      given to it, those queued before the connection was open first. The status only goes 0, 1, 8. */
  lemma ClientRun(calls: seq<Call>, hello: seq<byte>, finish: seq<byte>)
    requires CallsOk(Client(0, []), calls, hello, finish)
    ensures var (c, out) := EncodedAll(Client(0, []), calls, hello, finish);
            && (c.status == 0 ==> calls == [] && out == []) && (c.status == 1 ==> out == hello)
            && (c.status == 8 ==> out == hello + (finish + Flatten(Records(PartsOf(calls)))))
            && c.status in {0, 1, 8}
  {
    if calls != [] {
      var call := calls[0];
      var c1 := Client(1, [] + Record(call.data));
      assert Encoded(Client(0, []), call, hello, finish) == (c1, hello);
      WaitingRun(c1, calls[1..], hello, finish);
      RecordsConcat(call.parts, PartsOf(calls[1..]));
      OneRecord(call.data);
      assert hello + [] == hello;
    }
  }

  // ---- The server's input ----

  /** handshake_status, recv_buffer and the client's id. */
  datatype Server = Server(status: nat, rest: seq<byte>, id: seq<byte>)

  /** What server_decode answers: an error, bytes for the application, or the wish to answer the client. */
  datatype Answer = Error | Bytes(out: seq<byte>) | SendBack

  function Opened(s: Server, x: seq<byte>): (Server, Answer) {
    var d := Drain(Peeler(true), 0, x);
    (s.(status := 8, rest := d.rest), if d.status.Ok? then Bytes(d.out) else Error)
  }

  /** server_decode on the bytes `x` in a buffer where `stale` bytes stand behind them. `timely` and `unseen` are the
      answers of the clock and of the replay list. A hello for which the checks would leave the buffer, or copy an id of
      more than 32 bytes, is not modelled. */
  function Decoded(mac: Mac, serverKey: seq<byte>, s: Server, x: seq<byte>, stale: seq<byte>, timely: bool,
      unseen: bool): (Server, Answer)
    requires s.status != 8 && s.status != 3 ==> !HelloChecks(x + stale, |x|).Outside?
  {
    if s.status == 8 then Opened(s, s.rest + x)
    else if s.status == 3 then
      if FinishOk(mac, serverKey + s.id, x) then Opened(s, x[43..]) else (s, Error)
    else if HelloChecks(x + stale, |x|).Refused? then (s.(status := 2), Error)
    else
      ChecksMean(x + stale, |x|);
      (s.(status := 2, id := (x + stale)[44..76]),
       if timely && HelloAuthentic(mac, serverKey, x + stale) && unseen then SendBack else Error)
  }

  lemma ChecksMean(y: seq<byte>, n: nat)
    ensures HelloChecks(y, n).Pass? ==> |y| >= 76
  {
  }

  /** server_encode before the connection is open: the answer, from any status. */
  function Answered(s: Server): Server {
    if s.status == 8 then s else s.(status := 3)
  }

  // ---- Who is answered and who is let in ----

  /** The layout of a hello of `n` bytes at the start of a buffer, byte by byte. */
  ghost predicate HelloLayout(y: seq<byte>, n: nat) {
    && |y| >= 76 && y[0] == 0x16 && y[1] == 3 && y[2] == 1 && 0x100 * (y[3] as int) + y[4] == n - 5
    && y[5] == 1 && y[6] == 0 && 0x100 * (y[7] as int) + y[8] == n - 9 && y[9] == 3 && y[10] == 3 && y[43] == 32
  }

  /** A hello of someone who knows the key: ten bytes of the random field are the code of the 22 in front of them. */
  ghost predicate GoodHello(mac: Mac, serverKey: seq<byte>, y: seq<byte>, n: nat) {
    HelloLayout(y, n) && mac(serverKey + y[44..76], y[11..33])[..10] == y[33..43]
  }

  /** A finish message: the two headers, 22 bytes, and the code of these 33 bytes. */
  ghost predicate GoodFinish(mac: Mac, key: seq<byte>, x: seq<byte>) {
    && |x| >= 43 && x[..11] == [0x14, 3, 3, 0, 1, 1, 0x16, 3, 3, 0, 0x20] && mac(key, x[..33])[..10] == x[33..43]
  }

  /** The checks pass exactly on the layout. They are left without a verdict only where the buffer ends, or an id of
      more than 32 bytes would be copied. */
  lemma ChecksAreLayout(y: seq<byte>, n: nat)
    ensures HelloChecks(y, n).Pass? <==> HelloLayout(y, n)
    ensures HelloChecks(y, n).Outside? ==> |y| < 76 || 32 < y[43] < 0x80
  {
    hide Expect;
    ExpectTwo(y, 0, [0x16, 3, 1]);
    ExpectTwo(y, 5, [1, 0]);
    ExpectTwo(y, 9, [3, 3]);
  }

  lemma ExpectTwo(y: seq<byte>, at: nat, bytes: seq<byte>)
    requires 2 <= |bytes| <= 3
    ensures Expect(y, at, bytes).Pass? <==>
              at + |bytes| <= |y| && y[at] == bytes[0] && y[at + 1] == bytes[1]
              && (|bytes| == 3 ==> y[at + 2] == bytes[2])
    ensures Expect(y, at, bytes).Outside? ==> at + |bytes| > |y|
  {
    var b1 := bytes[1..];
    var b2 := b1[1..];
    assert |bytes| == 3 ==> b2[1..] == [];
    assert Expect(y, at, bytes) ==
           if at >= |y| then Outside else if y[at] != bytes[0] then Refused else Expect(y, at + 1, b1);
    assert Expect(y, at + 1, b1) ==
           if at + 1 >= |y| then Outside else if y[at + 1] != b1[0] then Refused else Expect(y, at + 2, b2);
    if |bytes| == 2 {
      assert Expect(y, at + 2, b2) == Pass;
    } else {
      assert b2[0] == bytes[2];
      assert Expect(y, at + 2, b2) == if at + 2 >= |y| then Outside else if y[at + 2] != b2[0] then Refused else Pass;
    }
  }

  lemma FinishOkMeans(mac: Mac, key: seq<byte>, x: seq<byte>)
    ensures FinishOk(mac, key, x) <==> GoodFinish(mac, key, x)
  {
    if |x| >= 43 {
      assert x[..11] == x[..6] + x[6..11];
    }
  }

  /** Before it has answered, the server answers exactly a good hello that is on time and new, and takes its id. */
  lemma AnswersIff(mac: Mac, serverKey: seq<byte>, s: Server, x: seq<byte>, stale: seq<byte>, timely: bool,
      unseen: bool)
    requires s.status != 3 && s.status != 8 && !HelloChecks(x + stale, |x|).Outside?
    ensures var (s', a) := Decoded(mac, serverKey, s, x, stale, timely, unseen);
            && (a == SendBack <==> GoodHello(mac, serverKey, x + stale, |x|) && timely && unseen)
            && (a == SendBack || a == Error) && s'.status == 2 && s'.rest == s.rest
            && s'.id == if HelloLayout(x + stale, |x|) then (x + stale)[44..76] else s.id
  {
    hide HelloChecks, HelloLayout;
    ChecksMean(x + stale, |x|);
    ChecksAreLayout(x + stale, |x|);
  }

  /** The client, before its connection is open, asks to send on exactly for an answer of someone who knows the key. */
  lemma ClientAcceptsIff(mac: Mac, key: seq<byte>, x: seq<byte>)
    ensures ServerHelloOk(mac, key, x) <==> |x| >= 76 && mac(key, x[11..33])[..10] == x[33..43]
  {
  }

  /** The status never goes back, and only a finish message with the right code opens the connection. */
  lemma ServerStatus(mac: Mac, serverKey: seq<byte>, s: Server, x: seq<byte>, stale: seq<byte>, timely: bool,
      unseen: bool)
    requires s.status in {0, 2, 3, 8} && (s.status != 8 && s.status != 3 ==> !HelloChecks(x + stale, |x|).Outside?)
    ensures var s' := Decoded(mac, serverKey, s, x, stale, timely, unseen).0;
            && s'.status in {0, 2, 3, 8} && s.status <= s'.status && (s.status < 3 ==> s'.status == 2)
            && (s'.status == 8 <==> s.status == 8 || (s.status == 3 && GoodFinish(mac, serverKey + s.id, x)))
            && (s.status == 3 && !GoodFinish(mac, serverKey + s.id, x) ==>
                  Decoded(mac, serverKey, s, x, stale, timely, unseen) == (s, Error))
            && (s.status >= 3 ==> Decoded(mac, serverKey, s, x, stale, timely, unseen).1 != SendBack)
  {
    hide HelloChecks, FinishOk, GoodFinish;
    FinishOkMeans(mac, serverKey + s.id, x);
  }

  // ---- Runs of the server ----

  /** One call on the server's side; `timely` and `unseen` are the answers of the clock and of the replay list. */
  datatype ServerCall = Decode(x: seq<byte>, stale: seq<byte>, timely: bool, unseen: bool) | Encode

  /** The checks of a message that arrives before the server has answered stay inside the buffers. */
  predicate Whole(s: Server, call: ServerCall) {
    call.Decode? && s.status != 8 && s.status != 3 ==> !HelloChecks(call.x + call.stale, |call.x|).Outside?
  }

  function Served(mac: Mac, serverKey: seq<byte>, s: Server, call: ServerCall): (Server, Answer)
    requires Whole(s, call)
  {
    match call
    case Decode(x, stale, timely, unseen) => Decoded(mac, serverKey, s, x, stale, timely, unseen)
    case Encode => (Answered(s), Bytes([]))
  }

  ghost predicate AllWhole(mac: Mac, serverKey: seq<byte>, s: Server, calls: seq<ServerCall>)
    decreases |calls|
  {
    calls == [] || (Whole(s, calls[0]) && AllWhole(mac, serverKey, Served(mac, serverKey, s, calls[0]).0, calls[1..]))
  }

  /** The server after the first `k` calls, whatever they answered. */
  ghost function After(mac: Mac, serverKey: seq<byte>, s: Server, calls: seq<ServerCall>, k: nat): Server
    requires k <= |calls| && AllWhole(mac, serverKey, s, calls)
    decreases k
  {
    if k == 0 then s else After(mac, serverKey, Served(mac, serverKey, s, calls[0]).0, calls[1..], k - 1)
  }

  /** One call as a move of the status. */
  ghost predicate Moves(a: nat, b: nat) {
    a == b || (a == 0 && b == 2) || (a == 2 && b == 3) || (a == 3 && b == 8)
  }

  lemma ServedStatus(mac: Mac, serverKey: seq<byte>, s: Server, call: ServerCall)
    requires s.status in {0, 2, 3, 8} && Whole(s, call)
    ensures var s' := Served(mac, serverKey, s, call).0;
            && s'.status in {2, 3, 8} && s.status <= s'.status
            && (Moves(s.status, s'.status) <==> !(s.status == 0 && call.Encode?))
            && (s.status < 8 == s'.status <==> Opens(mac, serverKey, s, call))
            && (Served(mac, serverKey, s, call).1 == SendBack <==> Greets(mac, serverKey, s, call))
            && (Greets(mac, serverKey, s, call) ==> s'.id == (call.x + call.stale)[44..76])
  {
    hide HelloChecks, HelloLayout, GoodFinish, Decoded;
    if call.Decode? {
      ServerStatus(mac, serverKey, s, call.x, call.stale, call.timely, call.unseen);
      if s.status < 3 {
        AnswersIff(mac, serverKey, s, call.x, call.stale, call.timely, call.unseen);
      }
    }
  }

  /** The call is a finish message under the id that the server has taken, at the moment it waits for one. */
  ghost predicate Opens(mac: Mac, serverKey: seq<byte>, s: Server, call: ServerCall) {
    s.status == 3 && call.Decode? && GoodFinish(mac, serverKey + s.id, call.x)
  }

  /** The call is a good hello, on time and new, before the server has answered one. */
  ghost predicate Greets(mac: Mac, serverKey: seq<byte>, s: Server, call: ServerCall)
    ensures Greets(mac, serverKey, s, call) ==> call.Decode? && |call.x + call.stale| >= 76
  {
    s.status < 3 && call.Decode? && GoodHello(mac, serverKey, call.x + call.stale, |call.x|) && call.timely
    && call.unseen
  }

  lemma {:induction false} WholeAt(mac: Mac, serverKey: seq<byte>, s: Server, calls: seq<ServerCall>, k: nat)
    requires AllWhole(mac, serverKey, s, calls) && k < |calls|
    ensures Whole(After(mac, serverKey, s, calls, k), calls[k])
    ensures After(mac, serverKey, s, calls, k + 1) == Served(mac, serverKey, After(mac, serverKey, s, calls, k),
        calls[k]).0
    decreases k
  {
    hide Served, Whole;
    if k > 0 {
      WholeAt(mac, serverKey, Served(mac, serverKey, s, calls[0]).0, calls[1..], k - 1);
    }
  }

  /** Over every interleaving of decode and encode calls on a server: the status is 0, 2, 3 or 8 and never goes back;
      behind the first call it only moves from 2 to 3 and from 3 to 8, the latter exactly for a finish message with the
      right code; and a call is answered exactly if it is a good hello, on time and new, at the start. */
  lemma {:induction false} StatusOverRuns(mac: Mac, serverKey: seq<byte>, s: Server, calls: seq<ServerCall>, k: nat)
    requires s.status in {0, 2, 3, 8} && AllWhole(mac, serverKey, s, calls) && k < |calls|
    ensures var a, b := After(mac, serverKey, s, calls, k), After(mac, serverKey, s, calls, k + 1);
            && a.status in {0, 2, 3, 8} && b.status in {2, 3, 8} && s.status <= a.status <= b.status
            && (Moves(a.status, b.status) <==> !(k == 0 && s.status == 0 && calls[0].Encode?))
            && (a.status < 8 == b.status <==> Opens(mac, serverKey, a, calls[k]))
            && Whole(a, calls[k])
            && (Served(mac, serverKey, a, calls[k]).1 == SendBack <==> Greets(mac, serverKey, a, calls[k]))
            && (Greets(mac, serverKey, a, calls[k]) ==> b.id == (calls[k].x + calls[k].stale)[44..76])
    decreases k
  {
    hide Served, Whole, Opens, Greets, Moves;
    WholeAt(mac, serverKey, s, calls, k);
    ServedStatus(mac, serverKey, s, calls[0]);
    var s1 := Served(mac, serverKey, s, calls[0]).0;
    if k > 0 {
      StatusOverRuns(mac, serverKey, s1, calls[1..], k - 1);
    }
  }

  /** A run until the first error: the server, and everything it has delivered. */
  function ServedAll(mac: Mac, serverKey: seq<byte>, s: Server, calls: seq<ServerCall>): (Server, seq<byte>, bool)
    requires AllWhole(mac, serverKey, s, calls)
    decreases |calls|
  {
    if calls == [] then (s, [], true)
    else
      var (s', a) := Served(mac, serverKey, s, calls[0]);
      if a.Error? then (s', [], false)
      else
        var (s'', out, ok) := ServedAll(mac, serverKey, s', calls[1..]);
        (s'', (if a.Bytes? then a.out else []) + out, ok)
  }

  /** One decode call per piece, on a server that has answered. */
  function Decodes(pieces: seq<seq<byte>>): (r: seq<ServerCall>)
    ensures |r| == |pieces|
  {
    seq(|pieces|, i requires 0 <= i < |pieces| => Decode(pieces[i], [], true, true))
  }

  lemma {:induction false} DecodesServed(mac: Mac, serverKey: seq<byte>, s: Server, pieces: seq<seq<byte>>)
    requires s.status == 3 || s.status == 8
    ensures AllWhole(mac, serverKey, s, Decodes(pieces))
    ensures ServedAll(mac, serverKey, s, Decodes(pieces)) == DecodedAll(mac, serverKey, s, pieces)
    decreases |pieces|
  {
    hide FinishOk;
    if pieces != [] {
      assert Decodes(pieces)[1..] == Decodes(pieces[1..]);
      DecodesServed(mac, serverKey, Decoded(mac, serverKey, s, pieces[0], [], true, true).0, pieces[1..]);
    }
  }

  /** One decode call per piece. */
  function DecodedAll(mac: Mac, serverKey: seq<byte>, s: Server, pieces: seq<seq<byte>>): (Server, seq<byte>, bool)
    requires s.status == 3 || s.status == 8
    decreases |pieces|
  {
    if pieces == [] then (s, [], true)
    else
      var (s', a) := Decoded(mac, serverKey, s, pieces[0], [], true, true);
      if !a.Bytes? then (s', [], false)
      else
        var (s'', out, ok) := DecodedAll(mac, serverKey, s', pieces[1..]);
        (s'', a.out + out, ok)
  }

  lemma {:induction false} OpenServer(mac: Mac, serverKey: seq<byte>, s: Server, pieces: seq<seq<byte>>)
    requires s.status == 8
    ensures var (s', out, ok) := DecodedAll(mac, serverKey, s, pieces);
            var f := Feed(Peeler(true), 0, s.rest, pieces);
            s'.status == 8 && ok == f.status.Ok? && (ok ==> out == f.out && s'.rest == f.rest)
    decreases |pieces|
  {
    if pieces != [] {
      StateIsZero(true, s.rest + pieces[0]);
      OpenServer(mac, serverKey, Decoded(mac, serverKey, s, pieces[0], [], true, true).0, pieces[1..]);
    }
  }

  lemma {:induction false} StateIsZero(strict: bool, x: seq<byte>)
    ensures Drain(Peeler(strict), 0, x).state == 0
    decreases |x|
  {
    PeelInside(strict, x);
    if Peel(strict, 0, x).Frame? {
      StateIsZero(strict, x[Peel(strict, 0, x).length..]);
    }
  }

  /** From the answer on: the first piece holds the finish message whole, then the server does what the record stream
      says. */
  lemma FinishedServer(mac: Mac, serverKey: seq<byte>, s: Server, rnd: seq<byte>, pieces: seq<seq<byte>>)
    requires s.status == 3 && |rnd| == 22 && pieces != [] && Finish(mac, serverKey + s.id, rnd) <= pieces[0]
    ensures var (s', out, ok) := DecodedAll(mac, serverKey, s, pieces);
            var f := Feed(Peeler(true), 0, [], [pieces[0][43..]] + pieces[1..]);
            s'.status == 8 && ok == f.status.Ok? && (ok ==> out == f.out && s'.rest == f.rest)
  {
    var x := pieces[0];
    var finish := Finish(mac, serverKey + s.id, rnd);
    FinishAccepted(mac, serverKey + s.id, rnd, x[43..]);
    assert finish + x[43..] == x;
    var pieces' := [x[43..]] + pieces[1..];
    assert pieces'[0] == x[43..] && pieces'[1..] == pieces[1..];
    assert [] + x[43..] == x[43..];
    StateIsZero(true, x[43..]);
    var s1 := Opened(s, x[43..]).0;
    assert Decoded(mac, serverKey, s, x, [], true, true) == Opened(s, x[43..]);
    OpenServer(mac, serverKey, s1, pieces[1..]);
  }

  // ---- The conversation ----

  /** The hello of a client with this id, key and name is accepted, and the server's answer too. */
  lemma HelloAnswered(mac: Mac, serverKey: seq<byte>, head: seq<byte>, id: seq<byte>, sni: seq<byte>, ticket: seq<byte>,
                      stale: seq<byte>, head': seq<byte>, rest: seq<byte>, s: Server)
    requires |head| == |head'| == 22 && |id| == 32 && |sni| < 256 && |ticket| == 208 && s.status in {0, 2}
    ensures var hello := ClientHello(AuthData(mac, serverKey + id, head), id, ExtensionData(sni, ticket));
            && HelloChecks(hello + stale, |hello|).Pass?
            && Decoded(mac, serverKey, s, hello, stale, true, true) == (s.(status := 2, id := id), SendBack)
            && ServerHelloOk(mac, serverKey + id, ServerHello(AuthData(mac, serverKey + id, head'), id) + rest)
  {
    hide HelloChecks, HelloAuthentic, ClientHello, ExtensionData, ServerHelloOk;
    ClientHelloAccepted(mac, serverKey, head, id, ExtensionData(sni, ticket), stale);
    ServerHelloAccepted(mac, serverKey + id, head', id, rest);
  }

  /** What a run of the client means for the pieces behind the hello. */
  lemma BehindTheHello(finish: seq<byte>, calls: seq<Call>, hello: seq<byte>, pieces: seq<seq<byte>>)
    requires |finish| == 43 && CallsOk(Client(0, []), calls, hello, finish)
    requires EncodedAll(Client(0, []), calls, hello, finish).0.status == 8
    requires pieces != [] && |pieces[0]| >= 43
    requires hello + Flatten(pieces) <= EncodedAll(Client(0, []), calls, hello, finish).1
    ensures finish <= pieces[0]
    ensures var stream, pieces' := Flatten(Records(PartsOf(calls))), [pieces[0][43..]] + pieces[1..];
            && Flatten(pieces') <= stream
            && (hello + Flatten(pieces) == EncodedAll(Client(0, []), calls, hello, finish).1
            ==> Flatten(pieces') == stream)
  {
    hide EncodedAll, CallsOk, Records, PartsOf;
    ClientRun(calls, hello, finish);
    var stream := Flatten(Records(PartsOf(calls)));
    var x, y := pieces[0], Flatten(pieces[1..]);
    var pieces' := [x[43..]] + pieces[1..];
    assert pieces'[0] == x[43..] && pieces'[1..] == pieces[1..];
    assert Flatten(pieces) == x + y && Flatten(pieces') == x[43..] + y;
    Cancel(hello, x + y, finish + stream);
    SplitPrefix(finish, stream, x, y);
  }

  lemma Cancel(a: seq<byte>, b: seq<byte>, c: seq<byte>)
    requires a + b <= a + c
    ensures b <= c && (a + b == a + c ==> b == c)
  {
    assert (a + b)[|a|..] == b && (a + c)[|a|..] == c;
  }

  lemma SplitPrefix(finish: seq<byte>, stream: seq<byte>, x: seq<byte>, y: seq<byte>)
    requires |finish| == 43 && |x| >= 43 && x + y <= finish + stream
    ensures finish <= x && x[43..] + y <= stream && (x + y == finish + stream ==> x[43..] + y == stream)
  {
    assert x[..43] == (x + y)[..43] == (finish + stream)[..43] == finish;
    assert x + y == finish + (x[43..] + y);
    Cancel(finish, x[43..] + y, stream);
  }

  /** For every run of the client that opens the connection, and every way in which the bytes behind the hello arrive,
      with the finish message whole: the outputs of the server are the bytes given to the client, as far as their
      records have arrived, and the server keeps part of one record. */
  lemma Conversation(mac: Mac, serverKey: seq<byte>, s: Server, rnd: seq<byte>, calls: seq<Call>, hello: seq<byte>,
                     pieces: seq<seq<byte>>)
    returns (n: nat)
    requires s.status == 3 && |rnd| == 22 && pieces != [] && |pieces[0]| >= 43
    requires CallsOk(Client(0, []), calls, hello, Finish(mac, serverKey + s.id, rnd))
    requires var (c, sent) := EncodedAll(Client(0, []), calls, hello, Finish(mac, serverKey + s.id, rnd));
             c.status == 8 && hello + Flatten(pieces) <= sent
    ensures var (s', out, ok) := DecodedAll(mac, serverKey, s, pieces);
            && ok && s'.status == 8 && n <= |PartsOf(calls)| && out == Flatten(PartsOf(calls)[..n])
            && out <= DataOf(calls)
            && (s'.rest == [] || (n < |PartsOf(calls)| && s'.rest <= Record(PartsOf(calls)[n])))
  {
    hide EncodedAll, CallsOk, DecodedAll, Finish, Record, Records, PartsOf, DataOf, Short;
    var finish, parts := Finish(mac, serverKey + s.id, rnd), PartsOf(calls);
    BehindTheHello(finish, calls, hello, pieces);
    FinishedServer(mac, serverKey, s, rnd, pieces);
    PartsCarryData(Client(0, []), calls, hello, finish);
    n := PrefixOfRecords(true, parts, [pieces[0][43..]] + pieces[1..]);
    FlattenConcat(parts[..n], parts[n..]);
    assert parts[..n] + parts[n..] == parts;
  }

  /** When everything the client sent has arrived, the server has delivered every byte given to the client, including
      those queued before the connection was open. */
  lemma WholeConversation(mac: Mac, serverKey: seq<byte>, s: Server, rnd: seq<byte>, calls: seq<Call>, hello: seq<byte>,
                          pieces: seq<seq<byte>>)
    requires s.status == 3 && |rnd| == 22 && pieces != [] && |pieces[0]| >= 43
    requires CallsOk(Client(0, []), calls, hello, Finish(mac, serverKey + s.id, rnd))
    requires var (c, sent) := EncodedAll(Client(0, []), calls, hello, Finish(mac, serverKey + s.id, rnd));
             c.status == 8 && hello + Flatten(pieces) == sent
    ensures var (s', out, ok) := DecodedAll(mac, serverKey, s, pieces);
            ok && s'.status == 8 && out == DataOf(calls) && (s'.rest == [] || s'.rest == Record([]))
  {
    hide EncodedAll, CallsOk, DecodedAll, Finish, Records, PartsOf, DataOf, Short;
    var finish := Finish(mac, serverKey + s.id, rnd);
    BehindTheHello(finish, calls, hello, pieces);
    FinishedServer(mac, serverKey, s, rnd, pieces);
    PartsCarryData(Client(0, []), calls, hello, finish);
    RecordsDelivered(true, PartsOf(calls), [pieces[0][43..]] + pieces[1..]);
  }

  /** The calls on the server in a whole handshake: the hello, the answer, and everything behind the hello as it
      arrives. */
  function Handshake(hello: seq<byte>, stale: seq<byte>, pieces: seq<seq<byte>>): seq<ServerCall> {
    [Decode(hello, stale, true, true), Encode] + Decodes(pieces)
  }

  /** From a fresh client and a fresh server on: the client's first call sends its hello, the server accepts and answers
      it, the client accepts the answer, and however the rest arrives, with the finish message whole, the server has
      delivered the bytes given to the client as far as their records have arrived, and all of them once everything has
      arrived. */
  lemma WholeHandshake(mac: Mac, serverKey: seq<byte>, s: Server, id: seq<byte>, sni: seq<byte>,
                       head: seq<byte>, ticket: seq<byte>, head': seq<byte>, rnd: seq<byte>,
                       calls: seq<Call>, pieces: seq<seq<byte>>, stale: seq<byte>, rest: seq<byte>)
    returns (n: nat)
    requires s.status == 0 && |id| == 32 && |sni| < 256 && |head| == |head'| == |rnd| == 22 && |ticket| == 208
    requires pieces != [] && |pieces[0]| >= 43
    requires var hello := ClientHello(AuthData(mac, serverKey + id, head), id, ExtensionData(sni, ticket));
             var finish := Finish(mac, serverKey + id, rnd);
             && CallsOk(Client(0, []), calls, hello, finish)
             && EncodedAll(Client(0, []), calls, hello, finish).0.status == 8
             && hello + Flatten(pieces) <= EncodedAll(Client(0, []), calls, hello, finish).1
    ensures var hello := ClientHello(AuthData(mac, serverKey + id, head), id, ExtensionData(sni, ticket));
            var finish := Finish(mac, serverKey + id, rnd);
            && calls != [] && Encoded(Client(0, []), calls[0], hello, finish).1 == hello
            && ServerHelloOk(mac, serverKey + id, ServerHello(AuthData(mac, serverKey + id, head'), id) + rest)
            && AllWhole(mac, serverKey, s, Handshake(hello, stale, pieces))
            && var (s', out, ok) := ServedAll(mac, serverKey, s, Handshake(hello, stale, pieces));
            && ok && s'.status == 8 && s'.id == id
            && n <= |PartsOf(calls)| && out == Flatten(PartsOf(calls)[..n]) && out <= DataOf(calls)
            && (s'.rest == [] || (n < |PartsOf(calls)| && s'.rest <= Record(PartsOf(calls)[n])))
            && (hello + Flatten(pieces) == EncodedAll(Client(0, []), calls, hello, finish).1 ==> out == DataOf(calls))
  {
    hide EncodedAll, CallsOk, DecodedAll, Finish, Record, Records, PartsOf, DataOf, Short, ClientHello, ExtensionData,
        HelloChecks;
    hide AllWhole, ServedAll, ServerHelloOk, ServerHello, AuthData, HelloAuthentic, Handshake;
    var hello := ClientHello(AuthData(mac, serverKey + id, head), id, ExtensionData(sni, ticket));
    HelloAnswered(mac, serverKey, head, id, sni, ticket, stale, head', rest, s);
    var s2 := Server(3, s.rest, id);
    ServedFromHello(mac, serverKey, s, hello, stale, id, pieces);
    ClientHasCalled(calls, hello, Finish(mac, serverKey + id, rnd));
    n := Conversation(mac, serverKey, s2, rnd, calls, hello, pieces);
    DecodedKeepsId(mac, serverKey, s2, pieces);
    if hello + Flatten(pieces) == EncodedAll(Client(0, []), calls, hello, Finish(mac, serverKey + id, rnd)).1 {
      WholeConversation(mac, serverKey, s2, rnd, calls, hello, pieces);
    }
  }

  lemma ClientHasCalled(calls: seq<Call>, hello: seq<byte>, finish: seq<byte>)
    requires CallsOk(Client(0, []), calls, hello, finish)
        && EncodedAll(Client(0, []), calls, hello, finish).0.status == 8
    ensures calls != [] && Encoded(Client(0, []), calls[0], hello, finish).1 == hello
  {
  }

  lemma {:induction false} DecodedKeepsId(mac: Mac, serverKey: seq<byte>, s: Server, pieces: seq<seq<byte>>)
    requires s.status == 3 || s.status == 8
    ensures DecodedAll(mac, serverKey, s, pieces).0.id == s.id
    decreases |pieces|
  {
    hide FinishOk;
    if pieces != [] {
      DecodedKeepsId(mac, serverKey, Decoded(mac, serverKey, s, pieces[0], [], true, true).0, pieces[1..]);
    }
  }

  /** The hello and the answer, and then one decode call per piece. */
  lemma ServedFromHello(mac: Mac, serverKey: seq<byte>, s: Server, hello: seq<byte>, stale: seq<byte>, id: seq<byte>,
      pieces: seq<seq<byte>>)
    requires s.status == 0 && !HelloChecks(hello + stale, |hello|).Outside?
    requires Decoded(mac, serverKey, s, hello, stale, true, true) == (s.(status := 2, id := id), SendBack)
    ensures AllWhole(mac, serverKey, s, Handshake(hello, stale, pieces))
    ensures ServedAll(mac, serverKey, s, Handshake(hello, stale, pieces)) == DecodedAll(mac, serverKey,
        Server(3, s.rest, id), pieces)
  {
    hide HelloChecks, Decoded, DecodedAll;
    var run := Handshake(hello, stale, pieces);
    var s1, s2 := s.(status := 2, id := id), Server(3, s.rest, id);
    assert run[0] == Decode(hello, stale, true, true) && run[1..][0] == Encode && run[1..][1..] == Decodes(pieces);
    DecodesServed(mac, serverKey, s2, pieces);
    assert Served(mac, serverKey, s1, Encode) == (s2, Bytes([]));
    assert AllWhole(mac, serverKey, s2, Decodes(pieces));
    var (s', out, ok) := ServedAll(mac, serverKey, s2, Decodes(pieces));
    assert [] + out == out && [] + ([] + out) == out;
    assert AllWhole(mac, serverKey, s1, run[1..]) && ServedAll(mac, serverKey, s1, run[1..]) == (s', out, ok);
  }

  /** The other direction: what an open server encodes, an open client decodes, however it is cut and however it
      arrives. */
  lemma Downstream(calls: seq<Call>, pieces: seq<seq<byte>>)
    requires CallsOk(Client(8, []), calls, [], []) && Flatten(pieces) == EncodedAll(Client(8, []), calls, [], []).1
    ensures var d := Feed(Peeler(false), 0, [], pieces);
            d.status == Ok && d.out == DataOf(calls) && (d.rest == [] || d.rest == Record([]))
  {
    hide Peeler, Feed, Records, PartsOf, DataOf, Short;
    OpenRun(Client(8, []), calls, [], []);
    PartsCarryData(Client(8, []), calls, [], []);
    RecordsDelivered(false, PartsOf(calls), pieces);
  }

  // ---- tls1.2_ticket.c ----

  /** Compares bytes of a message. */
  method Matches(data: array<byte>, at: nat, bytes: seq<byte>) returns (ok: bool)
    requires !Expect(data[..], at, bytes).Outside?
    ensures ok <==> Expect(data[..], at, bytes).Pass?
  {
    for i := 0 to |bytes|
      invariant Expect(data[..], at, bytes) == Expect(data[..], at + i, bytes[i..])
    {
      assert bytes[i..][1..] == bytes[i + 1..];
      if data[at + i] != bytes[i] {
        return false;
      }
    }
    ok := true;
  }

  /** The size, type, version and tag checks of server_decode. */
  method CheckHello(data: array<byte>, n: nat) returns (ok: bool)
    requires n <= data.Length && !HelloChecks(data[..], n).Outside?
    ensures ok <==> HelloChecks(data[..], n).Pass?
  {
    hide Expect;
    ok := Matches(data, 0, [0x16, 3, 1]);
    if !ok {
      return;
    }
    if Word(data[3], data[4]) != n - 5 {
      return false;
    }
    ok := Matches(data, 5, [1, 0]);
    if !ok {
      return;
    }
    if Word(data[7], data[8]) != n - 9 {
      return false;
    }
    ok := Matches(data, 9, [3, 3]);
    if !ok {
      return;
    }
    ok := 32 <= data[43] < 0x80;
  }

  class Obfs {
    const serverKey: seq<byte>
    var clientId: seq<byte>
    var status: nat
    var sendBuffer: seq<byte>
    const recv: Buffer

    ghost predicate Valid()
      reads this, recv
    {
      |clientId| == 32 && recv.Valid()
    }

    ghost function ClientView(): Client
      reads this
    {
      Client(status, sendBuffer)
    }

    ghost function ServerView(): Server
      requires recv.Valid()
      reads this, recv, recv.data
    {
      Server(status, recv.Contents(), clientId)
    }

    constructor (serverKey: seq<byte>, clientId: seq<byte>)
      requires |clientId| == 32
      ensures Valid() && ClientView() == Client(0, []) && ServerView() == Server(0, [], clientId)
      ensures this.serverKey == serverKey && fresh(recv) && fresh(recv.data)
    {
      this.serverKey := serverKey;
      this.clientId := clientId;
      status := 0;
      sendBuffer := [];
      recv := new Buffer(0);
    }

    /** Replaces the caller's bytes. */
    method Output(buf: Buffer, out: seq<byte>)
      requires buf.Valid()
      modifies buf, buf.data
      ensures buf.Valid() && (buf.data == old(buf.data) || fresh(buf.data)) && buf.Contents() == out
    {
      if buf.data.Length < |out| {
        buf.Brealloc(|out| * 2, 0);
      }
      CopyInto(buf.data, 0, out);
      buf.len := |out|;
    }

    /** tls12_ticket_auth_client_encode. `head` is the time and 18 random bytes, `ticket` and `rnd` are random. */
    method ClientEncode(mac: Mac, buf: Buffer, sni: seq<byte>, head: seq<byte>, ticket: seq<byte>, rnd: seq<byte>)
      returns (ghost call: Call)
      requires Valid() && buf.Valid() && buf.len <= MOST
      requires |head| == 22 && |sni| < 256 && |ticket| == 208 && |rnd| == 22
      modifies this, buf, buf.data
      ensures Valid() && clientId == old(clientId) && buf.Valid() && (buf.data == old(buf.data) || fresh(buf.data))
      ensures call.data == old(buf.Contents()) && CallOk(old(ClientView()), call)
      ensures (ClientView(), buf.Contents())
           == Encoded(old(ClientView()), call,
                      ClientHello(AuthData(mac, serverKey + clientId, head), clientId, ExtensionData(sni, ticket)),
                      Finish(mac, serverKey + clientId, rnd))
    {
      hide Cut, ClientHello, AuthData, ExtensionData, Finish, Records, Record;
      ghost var data := buf.Contents();
      if status == 8 {
        ghost var parts := TlsRecords.Encode(buf);
        call := Call(data, parts);
        return;
      }
      call := Call(data, [data]);
      sendBuffer := sendBuffer + Record(buf.data[..buf.len]);
      if status == 0 {
        var hello := BuildClientHello(mac, serverKey, clientId, sni, head, ticket);
        status := 1;
        Output(buf, hello[..]);
      } else if buf.len == 0 {
        Output(buf, Finish(mac, serverKey + clientId, rnd) + sendBuffer);
        sendBuffer := [];
        status := 8;
      } else {
        buf.len := 0;
      }
    }

    /** tls12_ticket_auth_server_encode. Before the connection is open it answers the hello. The code at the end is
        taken over the whole buffer, with what its own ten bytes held before. */
    method ServerEncode(mac: Mac, buf: Buffer, head: seq<byte>, rnd: seq<byte>)
      returns (ghost parts: seq<seq<byte>>, ghost unset: seq<byte>)
      requires Valid() && buf.Valid() && buf.len <= MOST && |head| == 22 && |rnd| == 22
      modifies this`status, buf, buf.data
      ensures Valid() && buf.Valid() && (buf.data == old(buf.data) || fresh(buf.data))
      ensures status == if old(status) == 8 then 8 else 3
      ensures old(status) == 8 ==> Cut(parts, old(buf.Contents())) && buf.Contents() == Flatten(Records(parts))
      ensures old(status) != 8 ==>
                var x := ServerHello(AuthData(mac, serverKey + clientId, head), clientId) + FinishHead(rnd);
                |unset| == 10 && buf.Contents() == x + mac(serverKey + clientId, x + unset)[..10]
    {
      hide Cut, ServerHello, AuthData, Records, FinishHead;
      parts, unset := [], [];
      if status == 8 {
        parts := TlsRecords.Encode(buf);
        return;
      }
      status := 3;
      var out := new byte[129];
      BuildServerHello(out, AuthData(mac, serverKey + clientId, head), clientId);
      CopyInto(out, 86, FinishHead(rnd));
      unset := out[119..];
      assert out[..119] == out[..86] + out[86..119];
      assert out[..] == out[..119] + unset;
      CopyInto(out, 119, mac(serverKey + clientId, out[..])[..HMAC_LEN]);
      Output(buf, out[..]);
    }

    /** tls12_ticket_auth_client_decode */
    method ClientDecode(mac: Mac, buf: Buffer) returns (a: Answer)
      requires Valid() && buf.Valid() && buf != recv && buf.data != recv.data
      modifies recv, recv.data, buf, buf.data
      ensures Valid() && buf.Valid() && (buf.data == old(buf.data) || fresh(buf.data))
      ensures old(status) == 8 ==>
                var d := Drain(Peeler(false), 0, old(recv.Contents()) + old(buf.Contents()));
                && recv.Contents() == d.rest
                && (if d.status.Ok? then a == Bytes(d.out) && buf.Contents() == d.out else a == Error)
      ensures old(status) != 8 ==>
                var x := old(buf.Contents());
                && (a == SendBack || a == Error) && buf.Contents() == x
                && (a == SendBack <==> |x| >= 76 && mac(serverKey + clientId, x[11..33])[..10] == x[33..43])
    {
      hide Drain, Peeler;
      if status == 8 {
        a := Receive(false, buf);
        return;
      }
      if buf.len < 11 + 32 + 1 + 32 {
        return Error;
      }
      RangeOfPrefix(buf.data, buf.len, 11, 33);
      RangeOfPrefix(buf.data, buf.len, 33, 43);
      var hash := mac(serverKey + clientId, buf.data[11..33]);
      a := if hash[..HMAC_LEN] != buf.data[33..43] then Error else SendBack;
    }

    /** Appends what arrived to recv_buffer and takes the complete records off it. */
    method Receive(strict: bool, buf: Buffer) returns (a: Answer)
      requires Valid() && buf.Valid() && buf != recv && buf.data != recv.data
      modifies recv, recv.data, buf, buf.data
      ensures Valid() && buf.Valid() && (buf.data == old(buf.data) || fresh(buf.data))
      ensures recv.data == old(recv.data) || fresh(recv.data)
      ensures var d := Drain(Peeler(strict), 0, old(recv.Contents()) + old(buf.Contents()));
              recv.Contents() == d.rest
              && (if d.status.Ok? then a == Bytes(d.out) && buf.Contents() == d.out else a == Error)
    {
      hide Drain, Peeler;
      ghost var rest := recv.Contents();
      recv.Brealloc(recv.len + buf.len, 0);
      assert recv.data[..recv.len] == rest;
      CopyInto(recv.data, recv.len, buf.data[..buf.len]);
      recv.len := recv.len + buf.len;
      assert recv.Contents() == rest + old(buf.Contents());
      var status := DecodeLoop(strict, recv, buf);
      a := if status == Ok then Bytes(buf.data[..buf.len]) else Error;
    }

    /** tls12_ticket_auth_server_decode; `timely` and `unseen` are the answers of the clock and of the replay list. */
    method ServerDecode(mac: Mac, buf: Buffer, timely: bool, unseen: bool) returns (a: Answer)
      requires Valid() && buf.Valid() && buf != recv && buf.data != recv.data
      requires status != 8 && status != 3 ==> !HelloChecks(buf.data[..], buf.len).Outside?
      modifies this, recv, recv.data, buf, buf.data
      ensures Valid() && buf.Valid() && (buf.data == old(buf.data) || fresh(buf.data))
      ensures (ServerView(), a) == Decoded(mac, serverKey, old(ServerView()), old(buf.Contents()),
          old(buf.data[buf.len..]), timely, unseen)
      ensures a.Bytes? ==> buf.Contents() == a.out
    {
      hide Drain, Peeler, HelloChecks, FinishOk;
      if status == 8 {
        a := Receive(true, buf);
        return;
      }
      if status == 3 {
        a := Open(mac, buf);
        return;
      }
      ghost var x := buf.Contents() + buf.data[buf.len..];
      assert x == buf.data[..];
      status := 2;
      var ok := CheckHello(buf.data, buf.len);
      if !ok {
        return Error;
      }
      ChecksMean(x, buf.len);
      assert x[44..76] == buf.data[44..76] && x[11..33] == buf.data[11..33] && x[33..43] == buf.data[33..43];
      clientId := buf.data[44..76];
      var hash := mac(serverKey + clientId, buf.data[11..33]);
      if !timely || hash[..HMAC_LEN] != buf.data[33..43] || !unseen {
        return Error;
      }
      a := SendBack;
    }

    /** The part of server_decode that waits for the finish message. */
    method Open(mac: Mac, buf: Buffer) returns (a: Answer)
      requires Valid() && buf.Valid() && buf != recv && buf.data != recv.data && status == 3
      modifies this`status, recv, recv.data, buf, buf.data
      ensures Valid() && buf.Valid() && (buf.data == old(buf.data) || fresh(buf.data))
      ensures (ServerView(), a)
           == if FinishOk(mac, serverKey + clientId, old(buf.Contents())) then
           Opened(old(ServerView()), old(buf.Contents())[43..])
              else (old(ServerView()), Error)
      ensures a.Bytes? ==> buf.Contents() == a.out
    {
      hide Drain, Peeler;
      ghost var x := buf.Contents();
      if buf.len < 43 {
        return Error;
      }
      RangeOfPrefix(buf.data, buf.len, 0, 6);
      RangeOfPrefix(buf.data, buf.len, 6, 11);
      RangeOfPrefix(buf.data, buf.len, 0, 33);
      RangeOfPrefix(buf.data, buf.len, 33, 43);
      if buf.data[0..6] != [0x14, 3, 3, 0, 1, 1] || buf.data[6..11] != [0x16, 3, 3, 0, 0x20] {
        return Error;
      }
      var hash := mac(serverKey + clientId, buf.data[0..33]);
      if hash[..HMAC_LEN] != buf.data[33..43] {
        return Error;
      }
      Keep(buf);
      status := 8;
      assert recv.Contents() + buf.Contents() == x[43..];
      a := Receive(true, buf);
    }

    /** What follows the finish message goes to recv_buffer. */
    method Keep(buf: Buffer)
      requires Valid() && buf.Valid() && buf != recv && buf.data != recv.data && buf.len >= 43
      modifies recv, recv.data, buf
      ensures Valid() && buf.Valid() && buf.data == old(buf.data) && buf.Contents() == []
      ensures (recv.data == old(recv.data) || fresh(recv.data)) && recv.Contents() == old(buf.Contents())[43..]
    {
      var n := buf.len - 43;
      recv.Brealloc(n, 0);
      CopyInto(recv.data, 0, buf.data[43..buf.len]);
      recv.len := n;
      buf.len := 0;
    }
  }
}
