/** The SNI parser of tls.c. */
module TlsSni {
  import opened Bits

  const TLS_HEADER_LEN: nat := 5

  /** What the parsers answer: a name, or -1, -2 and -5. */
  datatype Parsed = Found(name: seq<byte>) | Incomplete | NoName | Invalid

  /** What strncpy makes of `s`: nothing but zeros after the first zero. */
  function StrNCopy(s: seq<byte>): (r: seq<byte>)
    ensures |r| == |s|
  {
    if s == [] then []
    else if s[0] == 0 then seq(|s|, _ => 0)
    else [s[0]] + StrNCopy(s[1..])
  }

  lemma {:induction false} StrNCopyKeeps(s: seq<byte>)
    requires 0 !in s
    ensures StrNCopy(s) == s
  {
    if s != [] {
      StrNCopyKeeps(s[1..]);
    }
  }

  /** parse_server_name_extension from `pos` on. */
  function ServerName(d: seq<byte>, pos: nat): Parsed
    decreases |d| - pos
  {
    if pos + 3 < |d| then
      var len := Word(d[pos + 1], d[pos + 2]);
      if pos + 3 + len > |d| then Invalid
      else if d[pos] == 0 then Found(StrNCopy(d[pos + 3..pos + 3 + len]))
      else ServerName(d, pos + 3 + len)
    else if pos != |d| then Invalid
    else NoName
  }

  /** parse_extensions from `pos` on. */
  function Extensions(d: seq<byte>, pos: nat): Parsed
    decreases |d| - pos
  {
    if pos + 4 <= |d| then
      var len := Word(d[pos + 2], d[pos + 3]);
      if d[pos] == 0 && d[pos + 1] == 0 then
        if pos + 4 + len > |d| then Invalid else ServerName(d[pos + 4..pos + 4 + len], 2)
      else Extensions(d, pos + 4 + len)
    else if pos != |d| then Invalid
    else NoName
  }

  /** The part of parse_tls_header behind the session ID, on the bytes of the record. */
  function AfterSession(x: seq<byte>, pos: nat): Parsed
    requires |x| >= TLS_HEADER_LEN
  {
    if pos + 2 > |x| then Invalid
    else
      var suites := pos + 2 + Word(x[pos], x[pos + 1]);
      if suites + 1 > |x| then Invalid
      else
        var methods := suites + 1 + x[suites];
        if methods == |x| && x[1] == 3 && x[2] == 0 then NoName
        else if methods + 2 > |x| then Invalid
        else
          var len := Word(x[methods], x[methods + 1]);
          if methods + 2 + len > |x| then Invalid else Extensions(x[methods + 2..methods + 2 + len], 0)
  }

  /** The handshake part of parse_tls_header, on the bytes of the record. */
  function Handshake(x: seq<byte>): Parsed
    requires |x| >= TLS_HEADER_LEN
  {
    if |x| < 6 || x[5] != 1 then Invalid
    else if 44 > |x| then Invalid
    else AfterSession(x, x[43] as int + 44)
  }

  /** parse_tls_header. The version is compared as a signed char. */
  function ParseHeader(x: seq<byte>): Parsed {
    if |x| < TLS_HEADER_LEN then Incomplete
    else if x[0] >= 0x80 && x[2] == 1 then NoName
    else if x[0] != 0x16 then Invalid
    else if x[1] < 3 || x[1] >= 0x80 then NoName
    else
      var len := Word(x[3], x[4]) + TLS_HEADER_LEN;
      if |x| < len then Incomplete else Handshake(x[..len])
  }

  // ---- tls.c ----

  lemma RangeOfRange(data: array<byte>, from: nat, n: nat, i: nat, j: nat)
    requires from + n <= data.Length && i <= j <= n
    ensures data[from..from + n][i..j] == data[from + i..from + j]
  {
    var s, t := data[from..from + n][i..j], data[from + i..from + j];
    assert |s| == |t| && forall k :: 0 <= k < |s| ==> s[k] == t[k];
  }

  /** parse_server_name_extension, on the `n` bytes from `from`. */
  method ParseServerName(data: array<byte>, from: nat, n: nat) returns (r: Parsed)
    requires from + n <= data.Length
    ensures r == ServerName(data[from..from + n], 2)
  {
    ghost var d := data[from..from + n];
    var pos: nat := 2;
    while pos + 3 < n
      invariant ServerName(d, pos) == ServerName(d, 2)
      decreases n - pos
    {
      var len: nat := Word(data[from + pos + 1], data[from + pos + 2]);
      assert d[pos + 1] == data[from + pos + 1] && d[pos + 2] == data[from + pos + 2] && d[pos] == data[from + pos];
      if pos + 3 + len > n {
        return Invalid;
      }
      if data[from + pos] == 0 {
        RangeOfRange(data, from, n, pos + 3, pos + 3 + len);
        return Found(StrNCopy(data[from + pos + 3..from + pos + 3 + len]));
      }
      pos := pos + 3 + len;
    }
    r := if pos != n then Invalid else NoName;
  }

  /** parse_extensions, on the `n` bytes from `from`. */
  method ParseExtensions(data: array<byte>, from: nat, n: nat) returns (r: Parsed)
    requires from + n <= data.Length
    ensures r == Extensions(data[from..from + n], 0)
  {
    hide ServerName;
    ghost var d := data[from..from + n];
    var pos: nat := 0;
    while pos + 4 <= n
      invariant Extensions(d, pos) == Extensions(d, 0)
      decreases n - pos
    {
      var len: nat := Word(data[from + pos + 2], data[from + pos + 3]);
      assert d[pos + 2] == data[from + pos + 2] && d[pos + 3] == data[from + pos + 3];
      assert d[pos] == data[from + pos] && d[pos + 1] == data[from + pos + 1];
      if data[from + pos] == 0 && data[from + pos + 1] == 0 {
        if pos + 4 + len > n {
          return Invalid;
        }
        r := ParseServerName(data, from + pos + 4, len);
        RangeOfRange(data, from, n, pos + 4, pos + 4 + len);
        return;
      }
      pos := pos + 4 + len;
    }
    r := if pos != n then Invalid else NoName;
  }

  /** parse_tls_header */
  method ParseTlsHeader(data: array<byte>, dataLen0: nat) returns (r: Parsed)
    requires dataLen0 <= data.Length
    ensures r == ParseHeader(data[..dataLen0])
  {
    hide Handshake;
    ghost var x := data[..dataLen0];
    if dataLen0 < TLS_HEADER_LEN {
      return Incomplete;
    }
    if data[0] >= 0x80 && data[2] == 1 {
      return NoName;
    }
    if data[0] != 0x16 {
      return Invalid;
    }
    if data[1] < 3 || data[1] >= 0x80 {
      return NoName;
    }
    var len: nat := Word(data[3], data[4]) + TLS_HEADER_LEN;
    var dataLen := if dataLen0 < len then dataLen0 else len;
    if dataLen < len {
      return Incomplete;
    }
    assert x[..len] == data[..len];
    r := ParseHandshake(data, dataLen);
  }

  /** The handshake part of parse_tls_header. */
  method ParseHandshake(data: array<byte>, dataLen: nat) returns (r: Parsed)
    requires TLS_HEADER_LEN <= dataLen <= data.Length
    ensures r == Handshake(data[..dataLen])
  {
    hide AfterSession;
    var pos: nat := TLS_HEADER_LEN;
    if pos + 1 > dataLen || data[pos] != 1 {
      return Invalid;
    }
    pos := pos + 38;
    if pos + 1 > dataLen {
      return Invalid;
    }
    r := ParseAfterSession(data, dataLen, pos + 1 + data[pos]);
  }

  /** The part of parse_tls_header behind the session ID. */
  method ParseAfterSession(data: array<byte>, dataLen: nat, pos0: nat) returns (r: Parsed)
    requires TLS_HEADER_LEN <= dataLen <= data.Length
    ensures r == AfterSession(data[..dataLen], pos0)
  {
    hide Extensions;
    ghost var x := data[..dataLen];
    var pos: nat := pos0;
    if pos + 2 > dataLen {
      return Invalid;
    }
    pos := pos + 2 + Word(data[pos], data[pos + 1]);
    if pos + 1 > dataLen {
      return Invalid;
    }
    pos := pos + 1 + data[pos];
    if pos == dataLen && data[1] == 3 && data[2] == 0 {
      return NoName;
    }
    if pos + 2 > dataLen {
      return Invalid;
    }
    var len: nat := Word(data[pos], data[pos + 1]);
    pos := pos + 2;
    if pos + len > dataLen {
      return Invalid;
    }
    assert x[pos..pos + len] == data[pos..pos + len];
    r := ParseExtensions(data, pos, len);
  }
}
