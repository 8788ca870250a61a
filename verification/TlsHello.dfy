/** The ClientHello and ServerHello of tls1.2_ticket.c, which are written backwards from the end of a buffer, and the
    checks of the other side. */
module TlsHello {
  import opened Bits
  import opened Sequences
  import opened Buffers
  import opened Framing
  import opened Macs
  import opened TlsSni

  const HMAC_LEN: nat := 10

  function Word2(n: nat): (r: seq<byte>)
    ensures |r| == 2
  {
    [Hi(n), Lo(n)]
  }

  // ---- The constant parts ----

  /** Cipher suites and compression methods. */
  function Suites(): (r: seq<byte>)
    ensures |r| == 32 && Word(r[0], r[1]) == 28 && r[30] == 1 && r[31] == 0
  {
    [0x00, 0x1c, 0xc0, 0x2b, 0xc0, 0x2f, 0xcc, 0xa9, 0xcc, 0xa8, 0xcc, 0x14, 0xcc, 0x13, 0xc0, 0x0a,
     0xc0, 0x14, 0xc0, 0x09, 0xc0, 0x13, 0x00, 0x9c, 0x00, 0x35, 0x00, 0x2f, 0x00, 0x0a, 0x01, 0x00]
  }

  /** The extension in front of the server name. */
  function FirstExtension(): seq<byte> {
    [0xff, 0x01, 0x00, 0x01, 0x00]
  }

  /** Between the server name and the ticket of 208 bytes. */
  function TicketHeader(): (r: seq<byte>)
    ensures |r| == 8
  {
    [0x00, 0x17, 0x00, 0x00, 0x00, 0x23, 0x00, 0xd0]
  }

  /** Behind the ticket. */
  function LastExtensions(): (r: seq<byte>)
    ensures |r| == 59
  {
    [0x00, 0x0d, 0x00, 0x16, 0x00, 0x14, 0x06, 0x01, 0x06, 0x03, 0x05, 0x01, 0x05, 0x03, 0x04, 0x01,
     0x04, 0x03, 0x03, 0x01, 0x03, 0x03, 0x02, 0x01, 0x02, 0x03, 0x00, 0x05, 0x00, 0x05, 0x01, 0x00,
     0x00, 0x00, 0x00, 0x00, 0x12, 0x00, 0x00, 0x75, 0x50, 0x00, 0x00, 0x00, 0x0b, 0x00, 0x02, 0x01,
     0x00, 0x00, 0x0a, 0x00, 0x06, 0x00, 0x04, 0x00, 0x17, 0x00, 0x18]
  }

  // ---- The messages ----

  /** The server name extension. */
  function SniExtension(sni: seq<byte>): (r: seq<byte>)
    ensures |r| == |sni| + 9
  {
    [0, 0] + Word2(|sni| + 5) + Word2(|sni| + 3) + [0] + Word2(|sni|) + sni
  }

  /** All extensions. */
  function ExtensionData(sni: seq<byte>, ticket: seq<byte>): (r: seq<byte>)
    ensures |r| == |sni| + |ticket| + 81
  {
    FirstExtension() + SniExtension(sni) + TicketHeader() + ticket + LastExtensions()
  }

  /** tls12_ticket_pack_auth_data: four bytes of time, 18 random bytes, and the authentication code of both. */
  function AuthData(mac: Mac, key: seq<byte>, head: seq<byte>): (r: seq<byte>)
    ensures |r| == |head| + HMAC_LEN
  {
    head + mac(key, head)[..HMAC_LEN]
  }

  function HelloBody(auth: seq<byte>, id: seq<byte>, extensions: seq<byte>): (r: seq<byte>)
    ensures |r| == |auth| + |id| + |extensions| + 37
  {
    [3, 3] + auth + [0x20] + id + Suites() + Word2(|extensions|) + extensions
  }

  /** The ClientHello record. */
  function ClientHello(auth: seq<byte>, id: seq<byte>, extensions: seq<byte>): (r: seq<byte>)
    ensures |r| == |auth| + |id| + |extensions| + 46
  {
    var body := HelloBody(auth, id, extensions);
    [0x16, 3, 1] + Word2(|body| + 4) + [1, 0] + Word2(|body|) + body
  }

  // ---- The checks of the server ----

  /** What the checks say: an access behind the whole buffer, or more bytes than the 32 of the client's id, are apart.
  */
  datatype Verdict = Pass | Refused | Outside

  /** Compares bytes one by one. */
  function Expect(x: seq<byte>, at: nat, bytes: seq<byte>): Verdict
    decreases |bytes|
  {
    if bytes == [] then Pass
    else if at >= |x| then Outside
    else if x[at] != bytes[0] then Refused
    else Expect(x, at + 1, bytes[1..])
  }

  function Then(a: Verdict, b: Verdict): Verdict {
    if a.Pass? then b else a
  }

  /** A two-byte length that must be the length of the rest. */
  function ExpectSize(x: seq<byte>, at: nat, size: int): Verdict {
    if at + 2 > |x| then Outside else if Word(x[at], x[at + 1]) != size then Refused else Pass
  }

  /** The length of the session id, a signed char, must be at least 32. */
  function ExpectId(x: seq<byte>): Verdict {
    if 44 > |x| then Outside
    else if x[43] < 32 || x[43] >= 0x80 then Refused
    else if x[43] > 32 || 76 > |x| then Outside
    else Pass
  }

  /** The size, type, version and tag checks of server_decode on a buffer whose first `n` bytes are the message. For a
      short message they look at the bytes that were in the buffer before. */
  function HelloChecks(y: seq<byte>, n: nat): Verdict {
    Then(Expect(y, 0, [0x16, 3, 1]),
         Then(ExpectSize(y, 3, n - 5),
              Then(Expect(y, 5, [1, 0]), Then(ExpectSize(y, 7, n - 9), Then(Expect(y, 9, [3, 3]), ExpectId(y))))))
  }

  /** The authentication check: the code of the first 22 bytes of the random field, keyed with the client's id. */
  predicate HelloAuthentic(mac: Mac, serverKey: seq<byte>, x: seq<byte>)
    requires |x| >= 76
  {
    mac(serverKey + x[44..76], x[11..33])[..HMAC_LEN] == x[33..43]
  }

  // ---- The ClientHello passes them ----

  lemma ExpectPasses(x: seq<byte>, at: nat, bytes: seq<byte>)
    requires at + |bytes| <= |x| && x[at..at + |bytes|] == bytes
    ensures Expect(x, at, bytes).Pass?
    decreases |bytes|
  {
    if bytes != [] {
      assert x[at] == bytes[0];
      assert x[at + 1..at + 1 + |bytes[1..]|] == bytes[1..];
      ExpectPasses(x, at + 1, bytes[1..]);
    }
  }

  /** Where the parts of the ClientHello are. */
  lemma HelloFields(auth: seq<byte>, id: seq<byte>, extensions: seq<byte>)
    requires |auth| == 32 && |id| == 32
    ensures var x := ClientHello(auth, id, extensions);
            && x[..3] == [0x16, 3, 1] && x[3..5] == Word2(|x| - 5) && x[5..7] == [1, 0] && x[7..9] == Word2(|x| - 9)
            && x[9..11] == [3, 3] && x[11..43] == auth && x[43] == 0x20 && x[44..76] == id
            && x[76..108] == Suites() && x[108..110] == Word2(|extensions|) && x[110..] == extensions
  {
    hide Suites, Word2;
    var body := HelloBody(auth, id, extensions);
    var x := ClientHello(auth, id, extensions);
    assert x[9..] == body;
    BodyFields(auth, id, extensions);
    Shifted(x, body);
  }

  lemma BodyFields(auth: seq<byte>, id: seq<byte>, extensions: seq<byte>)
    requires |auth| == 32 && |id| == 32
    ensures var b := HelloBody(auth, id, extensions);
            && b[..2] == [3, 3] && b[2..34] == auth && b[34..35] == [0x20] && b[35..67] == id
            && b[67..99] == Suites() && b[99..101] == Word2(|extensions|) && b[101..] == extensions
  {
    hide Suites, Word2;
  }

  lemma Shifted(x: seq<byte>, b: seq<byte>)
    requires |x| >= 110 && x[9..] == b
    ensures x[9..11] == b[..2] && x[11..43] == b[2..34] && x[43] == b[34..35][0] && x[44..76] == b[35..67]
    ensures x[76..108] == b[67..99] && x[108..110] == b[99..101] && x[110..] == b[101..]
  {
  }

  lemma WordAt(x: seq<byte>, at: nat, n: uint16)
    requires at + 2 <= |x| && x[at..at + 2] == Word2(n)
    ensures Word(x[at], x[at + 1]) == n
  {
    assert x[at..at + 2][0] == x[at] && x[at..at + 2][1] == x[at + 1];
    WordOfBytes(n);
  }

  /** The ClientHello that client_encode builds passes every check of server_decode, whatever the buffer held before. */
  lemma ClientHelloAccepted(mac: Mac, serverKey: seq<byte>, head: seq<byte>, id: seq<byte>, extensions: seq<byte>,
      stale: seq<byte>)
    requires |head| == 22 && |id| == 32 && |extensions| < 0xFF00
    ensures var hello := ClientHello(AuthData(mac, serverKey + id, head), id, extensions);
            var x := hello + stale;
            HelloChecks(x, |hello|).Pass? && HelloAuthentic(mac, serverKey, x) && x[44..76] == id
  {
    hide Expect, Suites, Word2, ClientHello, Word;
    var auth := AuthData(mac, serverKey + id, head);
    var hello := ClientHello(auth, id, extensions);
    var x := hello + stale;
    HelloFields(auth, id, extensions);
    FieldsStay(hello, stale);
    ExpectPasses(x, 0, [0x16, 3, 1]);
    WordAt(x, 3, |hello| - 5);
    ExpectPasses(x, 5, [1, 0]);
    WordAt(x, 7, |hello| - 9);
    ExpectPasses(x, 9, [3, 3]);
    AuthParts(x, head, mac(serverKey + id, head)[..HMAC_LEN]);
  }

  lemma FieldsStay(hello: seq<byte>, stale: seq<byte>)
    ensures forall i, j :: 0 <= i <= j <= |hello| ==> (hello + stale)[i..j] == hello[i..j]
    ensures |hello| > 3 ==> hello[0..3] == hello[..3]
  {
  }

  lemma AuthParts(x: seq<byte>, head: seq<byte>, tag: seq<byte>)
    requires |x| >= 43 && |head| == 22 && |tag| == 10 && x[11..43] == head + tag
    ensures x[11..33] == head && x[33..43] == tag
  {
    assert x[11..33] == x[11..43][..22];
    assert x[33..43] == x[11..43][22..];
  }

  // ---- The parser of tls.c reads the name back ----

  lemma ExtensionFields(sni: seq<byte>, ticket: seq<byte>)
    ensures var d := ExtensionData(sni, ticket);
            d[..5] == FirstExtension() && d[5..14 + |sni|] == SniExtension(sni)
  {
    hide FirstExtension, SniExtension, TicketHeader, LastExtensions;
    assert |FirstExtension()| == 5 by { FirstIsFive(); }
    var d := ExtensionData(sni, ticket);
    var rest := TicketHeader() + ticket + LastExtensions();
    assert d == FirstExtension() + SniExtension(sni) + rest;
  }

  lemma FirstIsFive()
    ensures |FirstExtension()| == 5
  {
  }

  lemma SniFields(sni: seq<byte>, e: seq<byte>)
    requires e == SniExtension(sni) && |sni| < 0xFF00
    ensures e[0] == 0 && e[1] == 0 && Word(e[2], e[3]) == |sni| + 5 && e[6] == 0 && Word(e[7], e[8]) == |sni|
        && e[9..] == sni
  {
    WordOfBytes(|sni| + 5);
    WordOfBytes(|sni|);
  }

  /** parse_extensions on the extensions of the ClientHello: it finds the name if and only if there is one. */
  lemma NameInExtensions(sni: seq<byte>, ticket: seq<byte>)
    requires |sni| < 0xF000 && 0 !in sni && |ticket| == 208
    ensures Extensions(ExtensionData(sni, ticket), 0) == if sni == [] then Invalid else Found(sni)
  {
    hide ExtensionData, SniExtension, StrNCopy, ServerName;
    var d := ExtensionData(sni, ticket);
    ExtensionFields(sni, ticket);
    var n := |sni|;
    FirstSkipped(d);
    assert |d| == n + 289;
    var e := d[5..14 + n];
    SniFields(sni, e);
    assert d[5] == e[0] && d[6] == e[1] && d[7] == e[2] && d[8] == e[3];
    var s := d[9..9 + (n + 5)];
    assert s == e[4..];
    assert Extensions(d, 5) == ServerName(s, 2);
    NameFound(sni, e, s);
  }

  lemma FirstSkipped(d: seq<byte>)
    requires |d| >= 9 && d[..5] == FirstExtension()
    ensures Extensions(d, 0) == Extensions(d, 5)
  {
    assert d[0] == d[..5][0] && d[1] == d[..5][1] && d[2] == d[..5][2] && d[3] == d[..5][3];
  }

  lemma NameFound(sni: seq<byte>, e: seq<byte>, s: seq<byte>)
    requires |sni| < 0xFF00 && 0 !in sni && |e| == |sni| + 9 && s == e[4..]
    requires e[6] == 0 && Word(e[7], e[8]) == |sni| && e[9..] == sni
    ensures ServerName(s, 2) == if sni == [] then Invalid else Found(sni)
  {
    hide StrNCopy;
    if sni != [] {
      assert s[3] == e[7] && s[4] == e[8] && s[2] == e[6];
      assert s[5..5 + |sni|] == sni;
      StrNCopyKeeps(sni);
    }
  }

  /** For every name without zero bytes, the parser of tls.c reads from the ClientHello exactly that name; an empty one,
      as it is sent for an address, makes it reject the message. */
  lemma NameReadBack(auth: seq<byte>, id: seq<byte>, sni: seq<byte>, ticket: seq<byte>)
    requires |auth| == 32 && |id| == 32 && |ticket| == 208 && |sni| < 0xF000 && 0 !in sni
    ensures ParseHeader(ClientHello(auth, id, ExtensionData(sni, ticket))) == if sni == [] then Invalid else Found(sni)
  {
    hide ClientHello, ExtensionData, Extensions, Word2, Suites;
    var ext := ExtensionData(sni, ticket);
    var x := ClientHello(auth, id, ext);
    HelloFields(auth, id, ext);
    WordAt(x, 3, |x| - 5);
    WordAt(x, 108, |ext|);
    assert x[0] == x[..3][0] && x[1] == x[..3][1] && x[2] == x[..3][2] && x[5] == x[5..7][0];
    assert x[76] == x[76..108][0] && x[77] == x[76..108][1] && x[106] == x[76..108][30];
    assert x[..|x|] == x;
    assert x[110..110 + |ext|] == ext;
    assert AfterSession(x, 76) == Extensions(ext, 0);
    NameInExtensions(sni, ticket);
  }

  // ---- Choosing the name ----

  /** Where a name starts in the comma-separated list: at the beginning and behind every comma before position `n`. */
  function Starts(hosts: seq<byte>, n: nat): (r: seq<nat>)
    requires n <= |hosts|
    ensures |r| >= 1 && forall i :: 0 <= i < |r| ==> r[i] <= n
  {
    if n == 0 then [0]
    else if hosts[n - 1] == 44 then Starts(hosts, n - 1) + [n]
    else Starts(hosts, n - 1)
  }

  /** The name that starts at `k`: it is not cut at the next comma, and an address, which ends with a digit, gives none.
  */
  function NameFrom(hosts: seq<byte>, k: nat): seq<byte>
    requires k <= |hosts|
  {
    var s := hosts[k..];
    if s != [] && 48 <= s[|s| - 1] <= 57 then [] else s
  }

  /** The end of the list from its beginning or from a comma on; nothing if that ends with a digit. */
  ghost predicate Picked(hosts: seq<byte>, sni: seq<byte>) {
    exists k :: 0 <= k <= |hosts| && BehindComma(hosts, k)
                && sni == if k < |hosts| && '0' as int <= hosts[|hosts| - 1] <= '9' as int then [] else hosts[k..]
  }

  predicate BehindComma(hosts: seq<byte>, k: int)
    requires 0 <= k <= |hosts|
  {
    k == 0 || hosts[k - 1] == ',' as int
  }

  /** The names start at the beginning and behind every comma, in order and each once. */
  lemma {:induction false} StartsBehindCommas(hosts: seq<byte>, n: nat)
    requires n <= |hosts|
    ensures var r := Starts(hosts, n);
            && (forall i :: 0 <= i < |r| ==> BehindComma(hosts, r[i]))
            && (forall i, j :: 0 <= i < j < |r| ==> r[i] < r[j])
            && (forall k :: 0 <= k <= n && BehindComma(hosts, k) ==> k in r)
    decreases n
  {
    if n > 0 {
      StartsBehindCommas(hosts, n - 1);
    }
  }

  /** The choice of the name in client_encode, among at most 128 hosts in less than 1024 bytes, where the name chosen
      and what follows it fit the 256 bytes of `sni`. */
  method PickName(hosts: seq<byte>, draw: nat) returns (sni: seq<byte>)
    requires |hosts| < 1024 && |Starts(hosts, |hosts|)| <= 128
    requires var starts := Starts(hosts, |hosts|); |hosts| - starts[draw % |starts|] < 256
    ensures var starts := Starts(hosts, |hosts|); sni == NameFrom(hosts, starts[draw % |starts|]) && |sni| < 256
    ensures Picked(hosts, sni)
  {
    StartsBehindCommas(hosts, |hosts|);
    var phost := [0];
    for pos := 0 to |hosts|
      invariant phost == Starts(hosts, pos)
    {
      if hosts[pos] == 44 {
        phost := phost + [pos + 1];
      }
    }
    var k := phost[draw % |phost|];
    sni := hosts[k..];
    if |sni| > 0 && 48 <= sni[|sni| - 1] <= 57 {
      sni := [];
    }
  }

  // ---- Writing the messages ----

  /** Writes in front of what is there: the pointer moves down. */
  method Prepend(out: array<byte>, p: nat, s: seq<byte>) returns (p': nat)
    requires |s| <= p <= out.Length
    modifies out
    ensures p' == p - |s| && out[p'..] == s + old(out[p..])
  {
    ghost var rest := out[p..];
    p' := p - |s|;
    CopyInto(out, p', s);
    Front(out[..], p', s, rest);
  }

  lemma Front(now: seq<byte>, p: nat, s: seq<byte>, rest: seq<byte>)
    requires p + |s| + |rest| == |now| && now[p..p + |s|] == s && now[p + |s|..] == rest
    ensures now[p..] == s + rest
  {
  }

  /** Appends to the first `n` bytes. */
  method PutAt(out: array<byte>, n: nat, s: seq<byte>) returns (n': nat)
    requires n + |s| <= out.Length
    modifies out
    ensures n' == n + |s| && out[..n'] == old(out[..n]) + s
  {
    CopyInto(out, n, s);
    n' := n + |s|;
  }

  /** The server name extension, as client_encode fills tls_data with it. */
  method PutSni(tlsData: array<byte>, n: nat, sni: seq<byte>) returns (n': nat)
    requires n + |sni| + 9 <= tlsData.Length
    modifies tlsData
    ensures n' == n + |sni| + 9 && tlsData[..n'] == old(tlsData[..n]) + SniExtension(sni)
  {
    var len := |sni|;
    ghost var before := tlsData[..n];
    var head := [0, 0, Hi(len + 5), Lo(len + 5), Hi(len + 3), Lo(len + 3), 0, Hi(len), Lo(len)];
    n' := PutAt(tlsData, n, head);
    assert head == [0, 0] + Word2(len + 5) + Word2(len + 3) + [0] + Word2(len);
    n' := PutAt(tlsData, n', sni);
    Associate(before, head, sni);
  }

  /** tls_data: the extensions, written forwards. */
  method BuildExtensions(sni: seq<byte>, ticket: seq<byte>) returns (tlsData: array<byte>, n: nat)
    requires |sni| < 256 && |ticket| == 208
    ensures fresh(tlsData) && n <= tlsData.Length && tlsData[..n] == ExtensionData(sni, ticket)
  {
    hide SniExtension, TicketHeader, LastExtensions;
    tlsData := new byte[2048];
    n := PutAt(tlsData, 0, FirstExtension());
    assert tlsData[..n] == FirstExtension();
    n := PutSni(tlsData, n, sni);
    n := PutAt(tlsData, n, TicketHeader());
    n := PutAt(tlsData, n, ticket);
    n := PutAt(tlsData, n, LastExtensions());
  }

  /** The ClientHello, written backwards from its end; `len` counts the bytes that are there. */
  method BuildClientHello(mac: Mac, serverKey: seq<byte>, id: seq<byte>, sni: seq<byte>, head: seq<byte>,
      ticket: seq<byte>)
    returns (out: array<byte>)
    requires |id| == 32 && |head| == 22 && |sni| < 256 && |ticket| == 208
    ensures fresh(out) && out[..] == ClientHello(AuthData(mac, serverKey + id, head), id, ExtensionData(sni, ticket))
  {
    hide ExtensionData, Suites, AuthData;
    var tlsData, tlsDataLen := BuildExtensions(sni, ticket);
    ghost var ext := ExtensionData(sni, ticket);
    var auth := AuthData(mac, serverKey + id, head);
    var datalength := 11 + 32 + 1 + 32 + 32 + 2 + tlsDataLen;
    out := new byte[datalength];
    var pdata := Prepend(out, datalength, tlsData[..tlsDataLen]);
    assert out[pdata..] == ext;
    pdata := BuildBody(out, pdata, auth, id, tlsDataLen, ext);
    var len := tlsDataLen + 101;
    ghost var body := HelloBody(auth, id, ext);
    pdata := Prepend(out, pdata, [1, 0, Hi(len), Lo(len)]);
    len := len + 4;
    pdata := Prepend(out, pdata, [Hi(len), Lo(len)]);
    pdata := Prepend(out, pdata, [3, 1]);
    pdata := Prepend(out, pdata, [0x16]);
    assert pdata == 0 && out[0..] == out[..];
    Assembled(body);
  }

  lemma Assembled(body: seq<byte>)
    ensures [0x16] + ([3, 1] + ([Hi(|body| + 4), Lo(|body| + 4)] + ([1, 0, Hi(|body|), Lo(|body|)] + body)))
         == [0x16, 3, 1] + Word2(|body| + 4) + [1, 0] + Word2(|body|) + body
  {
  }

  /** The part of the ClientHello between the lengths and the extensions. */
  method BuildBody(out: array<byte>, pdata0: nat, auth: seq<byte>, id: seq<byte>, tlsDataLen: nat, ghost ext: seq<byte>)
    returns (pdata: nat)
    requires |auth| == 32 && |id| == 32 && 101 <= pdata0 <= out.Length
    requires tlsDataLen == |ext| && out[pdata0..] == ext
    modifies out
    ensures pdata == pdata0 - 101 && out[pdata..] == HelloBody(auth, id, ext)
  {
    hide Suites;
    pdata := Prepend(out, pdata0, [Hi(tlsDataLen), Lo(tlsDataLen)]);
    pdata := Prepend(out, pdata, Suites());
    pdata := Prepend(out, pdata, id);
    pdata := Prepend(out, pdata, [0x20]);
    pdata := Prepend(out, pdata, auth);
    pdata := Prepend(out, pdata, [3, 3]);
    BodyAssembled(auth, id, ext, Suites(), Word2(|ext|));
  }

  lemma BodyAssembled(auth: seq<byte>, id: seq<byte>, ext: seq<byte>, suites: seq<byte>, n: seq<byte>)
    ensures [3, 3] + (auth + ([0x20] + (id + (suites + (n + ext))))) == [3, 3] + auth + [0x20] + id + suites + n + ext
  {
  }

  // ---- The answer of the server ----

  function ServerTail(): (r: seq<byte>)
    ensures |r| == 10
  {
    [0xc0, 0x2f, 0x00, 0x00, 0x05, 0xff, 0x01, 0x00, 0x01, 0x00]
  }

  /** The ServerHello record. */
  function ServerHello(auth: seq<byte>, id: seq<byte>): (r: seq<byte>)
    ensures |r| == |auth| + |id| + 22
  {
    [0x16, 3, 3, 0, 81, 2, 0, 0, 77, 3, 3] + auth + [0x20] + id + ServerTail()
  }

  /** What client_decode demands of the answer. */
  predicate ServerHelloOk(mac: Mac, key: seq<byte>, x: seq<byte>) {
    |x| >= 76 && mac(key, x[11..33])[..HMAC_LEN] == x[33..43]
  }

  /** The client accepts the server's answer, whatever follows the ServerHello. */
  lemma ServerHelloAccepted(mac: Mac, key: seq<byte>, head: seq<byte>, id: seq<byte>, rest: seq<byte>)
    requires |head| == 22 && |id| == 32
    ensures ServerHelloOk(mac, key, ServerHello(AuthData(mac, key, head), id) + rest)
  {
    var auth := AuthData(mac, key, head);
    var x := ServerHello(auth, id) + rest;
    assert x[11..43] == auth;
    AuthParts(x, head, mac(key, head)[..HMAC_LEN]);
  }

  /** The ServerHello, written backwards into the first 86 bytes; `dataLen` counts the bytes that are there. */
  method BuildServerHello(out: array<byte>, auth: seq<byte>, id: seq<byte>)
    requires |auth| == 32 && |id| == 32 && out.Length >= 86
    modifies out
    ensures out[..86] == ServerHello(auth, id)
  {
    hide ServerHello;
    ghost var rest := out[86..];
    var p := Prepend(out, 86, ServerTail());
    p := Prepend(out, p, id);
    p := Prepend(out, p, [0x20]);
    p := Prepend(out, p, auth);
    p := Prepend(out, p, [3, 3]);
    var dataLen := 77;
    p := Prepend(out, p, [2, 0, Hi(dataLen), Lo(dataLen)]);
    dataLen := dataLen + 4;
    p := Prepend(out, p, [0x16, 3, 3, Hi(dataLen), Lo(dataLen)]);
    assert p == 0 && out[0..] == out[..];
    ServerAssembled(auth, id, rest);
    assert out[..86] == (ServerHello(auth, id) + rest)[..86];
  }

  lemma ServerAssembled(auth: seq<byte>, id: seq<byte>, rest: seq<byte>)
    ensures [0x16, 3, 3, Hi(81), Lo(81)]
            + ([2, 0, Hi(77), Lo(77)] + ([3, 3] + (auth + ([0x20] + (id + (ServerTail() + rest))))))
         == ServerHello(auth, id) + rest
  {
  }

  // ---- The finish message ----

  function FinishHead(rnd: seq<byte>): (r: seq<byte>)
    ensures |r| == |rnd| + 11
  {
    [0x14, 3, 3, 0, 1, 1] + [0x16, 3, 3, 0, 0x20] + rnd
  }

  /** The 43 bytes that the client sends before its queue. */
  function Finish(mac: Mac, key: seq<byte>, rnd: seq<byte>): (r: seq<byte>)
    ensures |r| == |rnd| + 21
  {
    FinishHead(rnd) + mac(key, FinishHead(rnd))[..HMAC_LEN]
  }

  /** What server_decode demands of the message that opens the connection. */
  predicate FinishOk(mac: Mac, key: seq<byte>, x: seq<byte>) {
    && |x| >= 43 && x[..6] == [0x14, 3, 3, 0, 1, 1] && x[6..11] == [0x16, 3, 3, 0, 0x20]
    && mac(key, x[..33])[..HMAC_LEN] == x[33..43]
  }

  lemma FinishAccepted(mac: Mac, key: seq<byte>, rnd: seq<byte>, rest: seq<byte>)
    requires |rnd| == 22
    ensures FinishOk(mac, key, Finish(mac, key, rnd) + rest) && (Finish(mac, key, rnd) + rest)[43..] == rest
  {
    var f, x := FinishHead(rnd), Finish(mac, key, rnd) + rest;
    assert x[..33] == f && x[33..43] == mac(key, f)[..HMAC_LEN];
    assert x[..6] == f[..6] == [0x14, 3, 3, 0, 1, 1] && x[6..11] == f[6..11] == [0x16, 3, 3, 0, 0x20];
  }
}
