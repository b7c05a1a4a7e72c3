/** The connection objects: the state every monitor keeps (host, port, timeout,
    client setting, read buffer) and the synchronous producer connection built
    on it. The socket itself is an oracle: each operation that would connect,
    send or receive takes the socket's answer as a parameter. */
module Monitor {
  import opened Wrappers
  import opened Commands
  import Response

  type byte = Response.byte

  const DefaultHost: string := "localhost"
  const DefaultPort: int := 4150

  /** The swoole client setting, passed through to the socket as opaque text. */
  type Setting = map<string, string>

  /** The default setting: swoole checks a 4-byte big-endian length prefix. */
  const DefaultSetting: Setting := map[
    "open_length_check" := "true",
    "package_max_length" := "2048000",
    "package_length_type" := "N",
    "package_length_offset" := "0",
    "package_body_offset" := "4"
  ]

  /** The exceptions a connection raises, with the domain their message names. */
  datatype Failure =
    | ConnectFailed(domain: string)            // ConnectionException: failed to connect
    | ReadFailed(domain: string)               // SocketException: recv gave false
    | ReadNothing(domain: string)              // SocketException: recv gave 0 bytes
    | WriteFailed(domain: string)              // SocketException: send gave false
    | BadFrame(error: Response.FrameError)     // a frame that could not be decoded

  // ---------------------------------------------------------------------------
  // The domain string "host:port"

  function DigitChar(d: nat): (c: char)
    requires d < 10
    ensures '0' <= c <= '9'
  {
    "0123456789"[d]
  }

  /** The decimal digits of `n`, most significant first, without leading zeros. */
  function Digits(n: nat): (s: string)
    ensures 1 <= |s| && AllDigits(s)
    ensures n >= 10 ==> s[0] != '0'
  {
    if n < 10 then [DigitChar(n)] else Digits(n / 10) + [DigitChar(n % 10)]
  }

  /** How PHP writes an integer into a string. */
  function Decimal(n: int): (s: string)
    ensures 1 <= |s| && ':' !in s
  {
    if n < 0 then "-" + Digits(-n) else Digits(n)
  }

  /** getDomain: host, a colon, the port in decimal. */
  function Domain(host: string, port: int): string {
    host + ":" + Decimal(port)
  }

  function ParseDigits(s: string): nat
    requires AllDigits(s)
  {
    if s == [] then 0 else ParseDigits(s[..|s| - 1]) * 10 + (s[|s| - 1] - '0') as nat
  }

  lemma {:induction false} ParseDigitsOfDigits(n: nat)
    ensures ParseDigits(Digits(n)) == n
  {
    if n >= 10 {
      var s := Digits(n);
      assert s[..|s| - 1] == Digits(n / 10);
      ParseDigitsOfDigits(n / 10);
    }
  }

  /** The position of the last colon in `s`, if any. */
  function LastColon(s: string): (r: Option<nat>)
    ensures r.Some? ==> r.value < |s| && s[r.value] == ':' && ':' !in s[r.value + 1..]
    ensures r.None? ==> ':' !in s
  {
    if s == [] then None
    else if s[|s| - 1] == ':' then Some(|s| - 1)
    else
      var r := LastColon(s[..|s| - 1]);
      assert s == s[..|s| - 1] + [s[|s| - 1]];
      if r.Some? then
        assert s[r.value + 1..] == s[..|s| - 1][r.value + 1..] + [s[|s| - 1]];
        r
      else r
  }

  predicate AllDigits(s: string) {
    forall i :: 0 <= i < |s| ==> '0' <= s[i] <= '9'
  }

  /** Reads a decimal integer, with an optional minus sign. */
  function ParsePort(s: string): Option<int> {
    if |s| >= 2 && s[0] == '-' && AllDigits(s[1..]) then Some(-(ParseDigits(s[1..]) as int))
    else if |s| >= 1 && AllDigits(s) then Some(ParseDigits(s) as int)
    else None
  }

  lemma ParsePortOfDecimal(n: int)
    ensures ParsePort(Decimal(n)) == Some(n)
  {
    if n < 0 {
      ParsePortOfNegative(n);
    } else {
      ParsePortOfNatural(n);
    }
  }

  lemma ParsePortOfNatural(n: nat)
    ensures ParsePort(Decimal(n)) == Some(n)
  {
    var s := Decimal(n);
    assert s == Digits(n);
    assert '0' <= s[0] <= '9';
    ParseDigitsOfDigits(n);
  }

  lemma ParsePortOfNegative(n: int)
    requires n < 0
    ensures ParsePort(Decimal(n)) == Some(n)
  {
    var m: nat := -n;
    assert Decimal(n) == "-" + Digits(m);
    ParsePortOfSignedDigits(m);
  }

  lemma ParsePortOfSignedDigits(m: nat)
    ensures ParsePort("-" + Digits(m)) == Some(-(m as int))
  {
    var d := Digits(m);
    var s := "-" + d;
    assert s[1..] == d;
    assert |s| >= 2 && s[0] == '-' && AllDigits(s[1..]);
    ParseDigitsOfDigits(m);
  }

  /** Splits a domain back into its host and port at its last colon. */
  function ParseDomain(d: string): Option<(string, int)> {
    match LastColon(d)
    case None => None
    case Some(k) =>
      match ParsePort(d[k + 1..])
      case None => None
      case Some(port) => Some((d[..k], port))
  }

  lemma {:induction false} LastColonBeforeTail(head: string, tail: string)
    requires ':' !in tail
    ensures LastColon(head + ":" + tail) == Some(|head|)
  {
    var s := head + ":" + tail;
    if tail != [] {
      assert s[..|s| - 1] == head + ":" + tail[..|tail| - 1];
      assert s[|s| - 1] == tail[|tail| - 1];
      LastColonBeforeTail(head, tail[..|tail| - 1]);
    }
  }

  /** The domain names its host and port unambiguously, even a host that
      itself contains colons. */
  lemma DomainRoundTrip(host: string, port: int)
    ensures ParseDomain(Domain(host, port)) == Some((host, port))
  {
    var d := Domain(host, port);
    var tail := Decimal(port);
    LastColonBeforeTail(host, tail);
    assert d[|host| + 1..] == tail;
    assert d[..|host|] == host;
    ParsePortOfDecimal(port);
  }

  // ---------------------------------------------------------------------------
  // The state every monitor keeps

  /** The fields and default behaviour shared by the producer and the consumer
      connections. */
  class AbstractMonitor {
    var host: string
    var port: int
    var timeout: real
    var setting: Setting
    /** Bytes received but not yet read; `None` is PHP's null. */
    var rBuffer: Option<seq<byte>>

    /** Stores host, port and timeout as given; an empty setting keeps the
        default, any other replaces it wholesale. */
    constructor (host: string := DefaultHost, port: int := DefaultPort, timeout: real := 3.0, setting: Setting := map[])
      ensures this.host == host && this.port == port && this.timeout == timeout
      ensures this.setting == if setting == map[] then DefaultSetting else setting
      ensures rBuffer == None
    {
      this.host := host;
      this.port := port;
      this.timeout := timeout;
      this.setting := if setting == map[] then DefaultSetting else setting;
      rBuffer := None;
    }

    /** getDomain: the host and port this monitor talks to. */
    function GetDomain(): (d: string)
      reads this
      ensures ParseDomain(d) == Some((host, port))
    {
      DomainRoundTrip(host, port);
      Domain(host, port)
    }

    /** The default write does nothing. */
    method Write(cmd: Command)
      ensures unchanged(this)
    {
    }

    /** The default reconnect does nothing. */
    method Reconnect()
      ensures unchanged(this)
    {
    }
  }

  // ---------------------------------------------------------------------------
  // The producer connection

  /** PHP's substr($buf, 0, $len) and substr($buf, $len) for a length below
      |buf|, which may be negative: a negative length counts from the end.
      The two parts always put the buffer back together. */
  function Cut(buf: seq<byte>, len: int): (parts: (seq<byte>, seq<byte>))
    requires len < |buf|
    ensures parts.0 + parts.1 == buf
    ensures 0 <= len ==> |parts.0| == len
    ensures len < 0 ==> |parts.0| == if -len >= |buf| then 0 else |buf| + len
  {
    if len >= 0 then (buf[..len], buf[len..])
    else if -len >= |buf| then ([], buf)
    else (buf[..|buf| + len], buf[|buf| + len..])
  }

  /** The buffer half of read: what is handed back and what is kept. Never
      more than `len` bytes come back, and fewer when the buffer is shorter. */
  function Slice(buffer: Option<seq<byte>>, len: int): (r: (Option<seq<byte>>, Option<seq<byte>>))
    ensures buffer.Some? && 0 <= len ==>
      r.0.Some? && |r.0.value| == if len < |buffer.value| then len else |buffer.value|
    ensures buffer.Some? && len < |buffer.value| ==> r.0.Some? && r.1.Some? && r.0.value + r.1.value == buffer.value
    ensures buffer.Some? && len >= |buffer.value| ==> r == (buffer, None)
    ensures buffer.None? && len >= 0 ==> r == (None, None)
    ensures buffer.None? && len < 0 ==> r == (Some([]), Some([]))
  {
    var buf := buffer.GetOr([]);
    if len >= |buf| then (buffer, None)
    else
      var parts := Cut(buf, len);
      (Some(parts.0), Some(parts.1))
  }

  /** A synchronous connection to one nsqd node. `base` is the monitor state it
      inherits; `connected` says whether the swoole client is connected and
      `sent` records every command handed to it, in order. */
  class Producer {
    const base: AbstractMonitor
    var connected: bool
    var sent: seq<Command>

    constructor (host: string := DefaultHost, port: int := DefaultPort, timeout: real := 3.0, setting: Setting := map[])
      ensures fresh(base)
      ensures base.host == host && base.port == port && base.timeout == timeout
      ensures base.setting == if setting == map[] then DefaultSetting else setting
      ensures base.rBuffer == None && !connected && sent == []
    {
      base := new AbstractMonitor(host, port, timeout, setting);
      connected := false;
      sent := [];
    }

    /** getMonitor: connects when not connected (`connectOk` is the socket's
        answer) and then sends the magic token. */
    method GetMonitor(connectOk: bool) returns (r: Result<(), Failure>)
      modifies this
      ensures r.Success? <==> old(connected) || connectOk
      ensures r.Failure? ==> r.error == ConnectFailed(base.GetDomain())
      ensures connected == (old(connected) || connectOk)
      ensures sent == if old(connected) || !connectOk then old(sent) else old(sent) + [Magic]
    {
      if !connected {
        if !connectOk {
          return Failure(ConnectFailed(base.GetDomain()));
        }
        connected := true;
        sent := sent + [Magic];
      }
      r := Success(());
    }

    /** readAll: what recv returns (`received`, `None` for false), unless that
        is false or empty. */
    method ReadAll(connectOk: bool, received: Option<seq<byte>>) returns (r: Result<seq<byte>, Failure>)
      modifies this
      ensures r.Success? <==> (old(connected) || connectOk) && received.Some? && received.value != []
      ensures r.Success? ==> r.value == received.value
      ensures r.Failure? && (old(connected) || connectOk) ==>
        r.error == if received.None? then ReadFailed(base.GetDomain()) else ReadNothing(base.GetDomain())
      ensures connected == (old(connected) || connectOk)
      ensures sent == if old(connected) || !connectOk then old(sent) else old(sent) + [Magic]
    {
      var _ :- GetMonitor(connectOk);
      match received {
        case None => r := Failure(ReadFailed(base.GetDomain()));
        case Some(data) =>
          if data == [] {
            r := Failure(ReadNothing(base.GetDomain()));
          } else {
            r := Success(data);
          }
      }
    }

    /** write: hands `cmd` to the socket; fails exactly when send reports false.
        The read buffer is not touched. */
    method Write(cmd: Command, connectOk: bool, sendOk: bool) returns (r: Result<(), Failure>)
      modifies this
      ensures r.Success? <==> (old(connected) || connectOk) && sendOk
      ensures r.Failure? && (old(connected) || connectOk) ==> r.error == WriteFailed(base.GetDomain())
      ensures connected == (old(connected) || connectOk)
      ensures var greeted := if old(connected) || !connectOk then old(sent) else old(sent) + [Magic];
        sent == if r.Success? then greeted + [cmd] else greeted
    {
      var _ :- GetMonitor(connectOk);
      if !sendOk {
        return Failure(WriteFailed(base.GetDomain()));
      }
      sent := sent + [cmd];
      r := Success(());
    }

    /** reconnect: closes the client and connects again. */
    method Reconnect(connectOk: bool) returns (r: Result<(), Failure>)
      modifies this
      ensures r.Success? <==> connectOk
      ensures r.Failure? ==> r.error == ConnectFailed(base.GetDomain())
      ensures connected == connectOk
      ensures sent == if connectOk then old(sent) + [Magic] else old(sent)
    {
      connected := false;
      r := GetMonitor(connectOk);
    }

    /** read: up to `len` bytes from the read buffer. A null buffer triggers a
        readAll whose data is dropped; a buffer no longer than `len` is handed
        over whole and reset to null. */
    method Read(len: int, connectOk: bool, received: Option<seq<byte>>) returns (r: Result<Option<seq<byte>>, Failure>)
      modifies this, base`rBuffer
      ensures old(base.rBuffer).Some? ==> unchanged(this)
      ensures old(base.rBuffer).None? ==> connected == (old(connected) || connectOk)
      ensures old(base.rBuffer).None? ==>
        sent == if old(connected) || !connectOk then old(sent) else old(sent) + [Magic]
      ensures r.Failure? <==> old(base.rBuffer).None? && !((old(connected) || connectOk) && received.Some? && received.value != [])
      ensures r.Failure? ==> base.rBuffer == None
      ensures r.Success? ==> (r.value, base.rBuffer) == Slice(old(base.rBuffer), len)
    {
      if base.rBuffer.None? {
        var _ :- ReadAll(connectOk, received);
      }
      var parts := Slice(base.rBuffer, len);
      r := Success(parts.0);
      base.rBuffer := parts.1;
    }
  }
}
