/** Every ClientHello of section 7.4.1.2 of RFC 5246 with extensions of section 3 of RFC 6066, and what the parser of
    tls.c finds in it. */
module TlsClientHello {
  import opened Bits
  import opened TlsSni

  /** A name with its type; 0 is host_name. */
  datatype Name = Name(kind: byte, bytes: seq<byte>)

  /** An extension: the server name list, or another type with any body. */
  datatype Extension = ServerNames(names: seq<Name>) | Other(kind: uint16, body: seq<byte>)

  /** Handshake length, version and random are any 38 bytes less the type; the other fields are counted. */
  datatype Hello = Hello(major: byte, minor: byte, head: seq<byte>, session: seq<byte>, suites: seq<byte>,
    methods: seq<byte>, extensions: seq<Extension>)

  // ---- The text ----

  /** A length in two bytes, high byte first. */
  function Length2(n: nat): (r: seq<byte>)
    requires n < 0x1_0000
    ensures |r| == 2
  {
    [n / 0x100, n % 0x100]
  }

  predicate NamesOk(names: seq<Name>) {
    forall i :: 0 <= i < |names| ==> 0 < |names[i].bytes| < 0x1_0000
  }

  function NamesText(names: seq<Name>): (r: seq<byte>)
    requires NamesOk(names)
  {
    if names == [] then []
    else [names[0].kind] + Length2(|names[0].bytes|) + names[0].bytes + NamesText(names[1..])
  }

  predicate ExtensionOk(e: Extension) {
    match e
    case ServerNames(names) => NamesOk(names) && |NamesText(names)| + 2 < 0x1_0000
    case Other(kind, body) => kind != 0 && |body| < 0x1_0000
  }

  predicate ExtensionsOk(es: seq<Extension>) {
    forall i :: 0 <= i < |es| ==> ExtensionOk(es[i])
  }

  function ExtensionText(e: Extension): (r: seq<byte>)
    requires ExtensionOk(e)
    ensures |r| >= 4
  {
    match e
    case ServerNames(names) =>
      [0, 0] + Length2(|NamesText(names)| + 2) + (Length2(|NamesText(names)|) + NamesText(names))
    case Other(kind, body) => Length2(kind) + Length2(|body|) + body
  }

  function ExtensionsText(es: seq<Extension>): seq<byte>
    requires ExtensionsOk(es)
  {
    if es == [] then [] else ExtensionText(es[0]) + ExtensionsText(es[1..])
  }

  predicate HelloOk(h: Hello) {
    && 3 <= h.major < 0x80 && |h.head| == 37 && |h.session| < 0x100 && |h.suites| < 0x1_0000 && |h.methods| < 0x100
    && ExtensionsOk(h.extensions) && |ExtensionsText(h.extensions)| < 0x1_0000 && |Body(h)| < 0x1_0000
  }

  /** The handshake message. */
  function Body(h: Hello): (r: seq<byte>)
    requires |h.head| == 37 && |h.session| < 0x100 && |h.suites| < 0x1_0000 && |h.methods| < 0x100
    requires ExtensionsOk(h.extensions) && |ExtensionsText(h.extensions)| < 0x1_0000
  {
    [1] + h.head + ([|h.session|] + h.session) + (Length2(|h.suites|) + h.suites) + ([|h.methods|] + h.methods)
    + (Length2(|ExtensionsText(h.extensions)|) + ExtensionsText(h.extensions))
  }

  /** The record. */
  function Text(h: Hello): (r: seq<byte>)
    requires HelloOk(h)
  {
    [0x16, h.major, h.minor] + Length2(|Body(h)|) + Body(h)
  }

  // ---- What is asked for ----

  /** The first host name, cut at a zero byte. */
  function HostOf(names: seq<Name>): Parsed {
    if names == [] then NoName
    else if names[0].kind == 0 then Found(UpToZero(names[0].bytes))
    else HostOf(names[1..])
  }

  /** The bytes in front of the first zero, and zeros in the place of the others, as they stand in the answer. */
  function UpToZero(s: seq<byte>): (r: seq<byte>)
    ensures |r| == |s|
  {
    if s == [] || s[0] == 0 then seq(|s|, _ => 0) else [s[0]] + UpToZero(s[1..])
  }

  /** The host of the first server name extension. */
  function Asked(es: seq<Extension>): Parsed {
    if es == [] then NoName
    else if es[0].ServerNames? then HostOf(es[0].names)
    else Asked(es[1..])
  }

  // ---- The parser finds it ----

  lemma {:induction false} CopyIsUpToZero(s: seq<byte>)
    ensures StrNCopy(s) == UpToZero(s)
  {
    if s != [] {
      CopyIsUpToZero(s[1..]);
    } else {
      assert seq(|s|, _ => 0) == [];
    }
  }

  lemma Length2Is(n: nat)
    requires n < 0x1_0000
    ensures Word(Length2(n)[0], Length2(n)[1]) == n
  {
  }

  /** Parts of what stands behind a position. */
  lemma Behind(d: seq<byte>, pos: nat, a: nat, b: nat)
    requires a <= b && pos + b <= |d|
    ensures d[pos + a..pos + b] == d[pos..][a..b] && d[pos + b..] == d[pos..][b..]
    ensures forall k :: 0 <= k < b ==> d[pos + k] == d[pos..][k]
  {
  }

  lemma NameStarts(n: Name, more: seq<byte>)
    requires |n.bytes| < 0x1_0000
    ensures var t, len := [n.kind] + Length2(|n.bytes|) + n.bytes + more, |n.bytes|;
            && |t| == 3 + len + |more| && t[0] == n.kind && Word(t[1], t[2]) == len
            && t[3..3 + len] == n.bytes && t[3 + len..] == more
  {
    Length2Is(|n.bytes|);
  }

  lemma {:induction false} NamesRead(d: seq<byte>, pos: nat, names: seq<Name>)
    requires NamesOk(names) && pos <= |d| && d[pos..] == NamesText(names)
    ensures ServerName(d, pos) == HostOf(names)
    decreases |names|
  {
    hide Length2, Word, StrNCopy, UpToZero, ServerName;
    if names != [] {
      var n, more := names[0], NamesText(names[1..]);
      var len := |n.bytes|;
      NameStarts(n, more);
      Behind(d, pos, 3, 3 + len);
      CopyIsUpToZero(n.bytes);
      OneName(d, pos, len);
      NamesRead(d, pos + 3 + len, names[1..]);
    } else {
      NoMoreNames(d, pos);
    }
  }

  lemma NoMoreNames(d: seq<byte>, pos: nat)
    requires pos == |d|
    ensures ServerName(d, pos) == NoName
  {
  }

  lemma OneName(d: seq<byte>, pos: nat, len: nat)
    requires 0 < len && pos + 3 + len <= |d| && Word(d[pos + 1], d[pos + 2]) == len
    ensures ServerName(d, pos)
         == if d[pos] == 0 then Found(StrNCopy(d[pos + 3..pos + 3 + len])) else ServerName(d, pos + 3 + len)
  {
    hide Word, StrNCopy;
  }

  lemma {:induction false} ExtensionsRead(d: seq<byte>, pos: nat, es: seq<Extension>)
    requires ExtensionsOk(es) && pos <= |d| && d[pos..] == ExtensionsText(es)
    ensures Extensions(d, pos) == Asked(es)
    decreases |es|
  {
    hide Length2, Word, ServerName, HostOf, ExtensionText, BodyOf, ExtensionOk, Extensions;
    if es != [] {
      var body := BodyOf(es[0]);
      ExtensionStarts(es[0], ExtensionsText(es[1..]));
      Behind(d, pos, 4, 4 + |body|);
      OneExtension(d, pos, |body|);
      if es[0].ServerNames? {
        HostRead(es[0]);
      } else {
        ExtensionsRead(d, pos + 4 + |body|, es[1..]);
      }
    } else {
      NoMoreExtensions(d, pos);
    }
  }

  lemma OneExtension(d: seq<byte>, pos: nat, len: nat)
    requires pos + 4 + len <= |d| && Word(d[pos + 2], d[pos + 3]) == len
    ensures Extensions(d, pos)
         == if d[pos] == 0 && d[pos + 1] == 0 then ServerName(d[pos + 4..pos + 4 + len], 2)
            else Extensions(d, pos + 4 + len)
  {
    hide Word, ServerName;
  }

  lemma NoMoreExtensions(d: seq<byte>, pos: nat)
    requires pos == |d|
    ensures Extensions(d, pos) == NoName
  {
  }

  lemma HostRead(e: Extension)
    requires ExtensionOk(e) && e.ServerNames?
    ensures ServerName(BodyOf(e), 2) == HostOf(e.names)
  {
    hide NamesText, ServerName, HostOf;
    assert BodyOf(e)[2..] == NamesText(e.names);
    NamesRead(BodyOf(e), 2, e.names);
  }

  function BodyOf(e: Extension): (r: seq<byte>)
    requires ExtensionOk(e)
    ensures |r| < 0x1_0000
  {
    match e
    case ServerNames(names) => Length2(|NamesText(names)|) + NamesText(names)
    case Other(_, body) => body
  }

  lemma ExtensionStarts(e: Extension, more: seq<byte>)
    requires ExtensionOk(e)
    ensures var t, body := ExtensionText(e) + more, BodyOf(e);
            && |t| == 4 + |body| + |more| && Word(t[2], t[3]) == |body|
            && t[4..4 + |body|] == body && t[4 + |body|..] == more
            && (t[0] == 0 && t[1] == 0 <==> e.ServerNames?)
  {
    Length2Is(|BodyOf(e)|);
  }

  /** For every ClientHello, with any extensions in front of the server name and any other name types in front of the
      host, and whatever follows the record, the parser answers the first host name of the first server name extension,
      and that there is none otherwise. */
  lemma NameIsFound(h: Hello, z: seq<byte>)
    requires HelloOk(h)
    ensures ParseHeader(Text(h) + z) == Asked(h.extensions)
  {
    hide ExtensionsOk, ExtensionsText, Length2, Extensions, Body;
    var body := Body(h);
    var x, y := Text(h) + z, Text(h);
    Length2Is(|body|);
    assert x[3..5] == Length2(|body|) && x[3] == x[3..5][0] && x[4] == x[3..5][1];
    assert x[..|body| + 5] == y;
    assert y[5..] == body;
    HandshakeRead(h, y);
  }

  lemma HandshakeRead(h: Hello, y: seq<byte>)
    requires HelloOk(h) && |y| == |Body(h)| + 5 && y[5..] == Body(h)
    ensures Handshake(y) == Asked(h.extensions)
  {
    hide ExtensionsOk, ExtensionsText, Length2, Extensions, AfterSession, Body;
    BodyParts(h);
    assert y[5] == y[5..][0] && y[43] == y[5..][38];
    AfterRead(h, y);
  }

  lemma BodyParts(h: Hello)
    requires HelloOk(h)
    ensures var b, s, n, m := Body(h), |h.session|, |h.suites|, |h.methods|;
            var exts := ExtensionsText(h.extensions);
            && |b| == 44 + s + n + m + |exts| && b[0] == 1 && b[38] == s
            && b[39 + s..41 + s] == Length2(n) && b[41 + s + n] == m
            && b[42 + s + n + m..44 + s + n + m] == Length2(|exts|) && b[44 + s + n + m..] == exts
  {
    hide ExtensionsOk, ExtensionsText, Length2;
  }

  lemma AfterRead(h: Hello, y: seq<byte>)
    requires HelloOk(h) && |y| == |Body(h)| + 5 && y[5..] == Body(h)
    ensures AfterSession(y, |h.session| + 44) == Asked(h.extensions)
  {
    hide ExtensionsOk, ExtensionsText, Length2, Extensions, Body;
    var s, n, m := |h.session|, |h.suites|, |h.methods|;
    var b, exts := Body(h), ExtensionsText(h.extensions);
    BodyParts(h);
    Length2Is(n);
    Length2Is(|exts|);
    assert b[39 + s..41 + s][0] == b[39 + s] == y[44 + s] && b[39 + s..41 + s][1] == b[40 + s] == y[45 + s];
    assert b[41 + s + n] == y[46 + s + n];
    var p := 42 + s + n + m;
    assert b[p..p + 2][0] == b[p] == y[5 + p] && b[p..p + 2][1] == b[p + 1] == y[6 + p];
    assert y[7 + p..7 + p + |exts|] == b[p + 2..] == exts;
    assert exts[0..] == exts;
    ExtensionsRead(exts, 0, h.extensions);
  }

  // ---- And nothing else ----

  predicate OthersOnly(es: seq<Extension>) {
    ExtensionsOk(es) && forall i :: 0 <= i < |es| ==> es[i].Other?
  }

  predicate NotHosts(names: seq<Name>) {
    forall i :: 0 <= i < |names| ==> names[i].kind != 0 && |names[i].bytes| < 0x1_0000
  }

  /** Names of any length, the empty one too. */
  function LooseText(names: seq<Name>): seq<byte>
    requires NotHosts(names)
  {
    if names == [] then []
    else [names[0].kind] + Length2(|names[0].bytes|) + names[0].bytes + LooseText(names[1..])
  }

  lemma WordIsLength(a: byte, b: byte)
    ensures Length2(Word(a, b)) == [a, b]
  {
  }

  /** A host that is found stands behind entries of other types. */
  lemma {:induction false} HostStands(d: seq<byte>, pos: nat)
      returns (front: seq<Name>, host: seq<byte>, rest: seq<byte>)
    requires pos <= |d| && ServerName(d, pos).Found?
    ensures NotHosts(front) && |host| < 0x1_0000 && ServerName(d, pos) == Found(UpToZero(host))
    ensures d[pos..] == LooseText(front) + ([0] + Length2(|host|) + host + rest)
    decreases |d| - pos
  {
    hide Word, UpToZero, StrNCopy, Length2;
    var len := Word(d[pos + 1], d[pos + 2]);
    var t := d[pos..];
    var end := pos + 3 + len;
    WordIsLength(d[pos + 1], d[pos + 2]);
    var body := d[pos + 3..end];
    Cut3(d, pos, end);
    if d[pos] == 0 {
      front, host, rest := [], body, d[end..];
      CopyIsUpToZero(host);
      assert LooseText([]) + t == t;
    } else {
      front, host, rest := HostStands(d, end);
      var first := Name(d[pos], body);
      assert ([first] + front)[1..] == front;
      assert t == ([first.kind] + Length2(len) + body) + (LooseText(front) + ([0] + Length2(|host|) + host + rest));
      front := [first] + front;
    }
  }

  lemma Cut3(d: seq<byte>, pos: nat, end: nat)
    requires pos + 3 <= end <= |d|
    ensures d[pos..] == [d[pos]] + [d[pos + 1], d[pos + 2]] + d[pos + 3..end] + d[end..]
  {
  }

  lemma Cut4(d: seq<byte>, pos: nat, end: nat)
    requires pos + 4 <= end <= |d|
    ensures d[pos..] == [d[pos], d[pos + 1]] + [d[pos + 2], d[pos + 3]] + d[pos + 4..end] + d[end..]
  {
  }

  /** The server name extension that is used stands behind extensions of other types. */
  lemma {:induction false} ExtensionStands(d: seq<byte>, pos: nat)
    returns (front: seq<Extension>, body: seq<byte>, rest: seq<byte>)
    requires pos <= |d| && Extensions(d, pos).Found?
    ensures OthersOnly(front) && |body| < 0x1_0000 && Extensions(d, pos) == ServerName(body, 2)
    ensures d[pos..] == ExtensionsText(front) + ([0, 0] + Length2(|body|) + body + rest)
    decreases |d| - pos
  {
    hide Word, ServerName, Length2, Extensions, ExtensionsText, ExtensionOk, ExtensionText;
    EnoughForOne(d, pos);
    var len := Word(d[pos + 2], d[pos + 3]);
    var t := d[pos..];
    var end := pos + 4 + len;
    OneExtension(d, pos, len);
    WordIsLength(d[pos], d[pos + 1]);
    WordIsLength(d[pos + 2], d[pos + 3]);
    var inner := d[pos + 4..end];
    Cut4(d, pos, end);
    if d[pos] == 0 && d[pos + 1] == 0 {
      front, body, rest := [], inner, d[end..];
      NoText();
      assert [] + t == t;
    } else {
      front, body, rest := ExtensionStands(d, end);
      var first := Other(Word(d[pos], d[pos + 1]), inner);
      NotNameType(d[pos], d[pos + 1]);
      OtherText(first);
      var more := [0, 0] + Length2(|body|) + body + rest;
      OneInFront(first, front, more);
      assert t == ExtensionText(first) + (ExtensionsText(front) + more);
      front := [first] + front;
    }
  }

  lemma OneInFront(e: Extension, es: seq<Extension>, more: seq<byte>)
    requires ExtensionOk(e) && ExtensionsOk(es)
    ensures ExtensionsOk([e] + es)
    ensures ExtensionsText([e] + es) + more == ExtensionText(e) + (ExtensionsText(es) + more)
  {
    hide ExtensionOk, ExtensionText;
    assert ([e] + es)[1..] == es;
  }

  lemma NotNameType(a: byte, b: byte)
    requires a != 0 || b != 0
    ensures Word(a, b) != 0
  {
  }

  lemma EnoughForOne(d: seq<byte>, pos: nat)
    requires Extensions(d, pos).Found?
    ensures pos + 4 <= |d| && pos + 4 + Word(d[pos + 2], d[pos + 3]) <= |d|
  {
    hide Word, ServerName;
  }

  lemma NoText()
    ensures ExtensionsText([]) == [] && OthersOnly([])
  {
  }

  lemma OtherText(e: Extension)
    requires e.Other? && e.kind != 0 && |e.body| < 0x1_0000
    ensures ExtensionOk(e) && ExtensionText(e) == Length2(e.kind) + Length2(|e.body|) + e.body
  {
    hide Length2;
  }

  /** A name is found only in a complete handshake record of version 3 or above with a ClientHello, whose counted fields
      stay inside the record: in its extension block, behind extensions of other types, in a server name list behind
      names of other types. */
  lemma FoundOnlyThere(x: seq<byte>)
    returns (block: seq<byte>, front: seq<Extension>, length: seq<byte>, others: seq<Name>, host: seq<byte>,
             tail: seq<byte>, rest: seq<byte>)
    requires ParseHeader(x).Found?
    ensures |x| >= 44 && x[0] == 0x16 && 3 <= x[1] < 0x80 && x[5] == 1 && 0x100 * (x[3] as int) + x[4] + 5 <= |x|
    ensures var s := 44 + x[43] as int;
            && s + 2 <= |x|
            && var n := s + 2 + 0x100 * (x[s] as int) + x[s + 1];
            && n + 1 <= |x|
            && var m := n + 1 + x[n];
            && m + 2 + |block| <= 0x100 * (x[3] as int) + x[4] + 5
            && |block| == 0x100 * (x[m] as int) + x[m + 1] && block == x[m + 2..m + 2 + |block|]
    ensures OthersOnly(front) && NotHosts(others) && ParseHeader(x) == Found(UpToZero(host)) && |host| < 0x1_0000
    ensures var list := LooseText(others) + ([0] + Length2(|host|) + host + tail);
            |length| == 2 && |list| + 2 < 0x1_0000
            && block == ExtensionsText(front) + ([0, 0] + Length2(|list| + 2) + (length + list) + rest)
  {
    hide Extensions, UpToZero, ExtensionsText, LooseText, Length2, ServerName;
    var len := Word(x[3], x[4]) + 5;
    var y := x[..len];
    var s: nat := 44 + x[43] as int;
    var n: nat := s + 2 + Word(y[s], y[s + 1]);
    var m: nat := n + 1 + y[n];
    block := y[m + 2..m + 2 + Word(y[m], y[m + 1])];
    var body;
    front, body, rest := ExtensionStands(block, 0);
    LongEnough(body);
    others, host, tail := HostStands(body, 2);
    length := body[..2];
    assert body == body[..2] + body[2..];
    assert block[0..] == block;
  }

  lemma LongEnough(body: seq<byte>)
    requires ServerName(body, 2).Found?
    ensures |body| >= 2
  {
  }
}
