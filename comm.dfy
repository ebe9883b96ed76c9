/** The serial transport of pygascard/comm.py: command framing (`_write`), the
    two-phase line reader (`_readline`, `_write_readline`) and the `isOpen` flag.
    The serial port is replaced by the sequence of events its reads produce. */
module Comm {
  import opened Wrappers
  import opened Text

  type Byte = b: int | 0 <= b < 256

  /** The outcome of one `anyio.move_on_after(timeout)` window in which
      `_readline` polls `_read()` until it returns something: the bytes of
      the first non-empty read, or a timeout when every poll came back empty.
      Once the input is used up, every further window times out. */
  datatype Event = Chunk(data: seq<Byte>) | Timeout

  const CR: Byte := 13
  const LF: Byte := 10
  /** `self.eol`. */
  const EOL: seq<Byte> := [CR, LF]

  /** `self.codes_list`: the starts of the replies of the seven readable modes. */
  const LEAD_INS: seq<string> := ["N ", "N1 ", "C1 ", "E1 ", "O1 ", "X ", "U "]

  // ---------------------------------------------------------------- ASCII

  predicate IsAscii(s: string) {
    forall i | 0 <= i < |s| :: s[i] < '\U{80}'
  }

  predicate AsciiBytes(b: seq<Byte>) {
    forall i | 0 <= i < |b| :: b[i] < 128
  }

  function Bytes(s: string): (b: seq<Byte>)
    requires IsAscii(s)
  {
    seq(|s|, i requires 0 <= i < |s| => s[i] as int)
  }

  function Chars(b: seq<Byte>): (s: string)
    requires AsciiBytes(b)
  {
    seq(|b|, i requires 0 <= i < |b| => b[i] as char)
  }

  /** `s.encode("ascii")`. */
  function EncodeAscii(s: string): Result<seq<Byte>, Error> {
    if IsAscii(s) then Success(Bytes(s)) else Failure(UnicodeEncodeError)
  }

  /** `b.decode("ascii")`. */
  function DecodeAscii(b: seq<Byte>): Result<string, Error> {
    if AsciiBytes(b) then Success(Chars(b)) else Failure(UnicodeDecodeError)
  }

  /** Decoding undoes encoding, and encoding undoes decoding. */
  lemma AsciiRoundTrip(s: string, b: seq<Byte>)
    ensures EncodeAscii(s).Success? ==> DecodeAscii(EncodeAscii(s).value) == Success(s)
    ensures DecodeAscii(b).Success? ==> EncodeAscii(DecodeAscii(b).value) == Success(b)
  {
    if IsAscii(s) {
      var e := Bytes(s);
      assert AsciiBytes(e);
      assert Chars(e) == s;
    }
    if AsciiBytes(b) {
      var t := Chars(b);
      assert IsAscii(t);
      assert Bytes(t) == b;
    }
  }

  /** The bytes `_write(command)` sends: `command.encode("ascii") + self.eol`. */
  function Frame(command: string): Result<seq<Byte>, Error> {
    match EncodeAscii(command)
    case Success(b) => Success(b + EOL)
    case Failure(e) => Failure(e)
  }

  /** A frame exists exactly for ASCII commands; read back it is the command
      followed by "\r\n", so it holds a terminator. */
  lemma FrameShape(command: string)
    ensures Frame(command).Success? <==> IsAscii(command)
    ensures Frame(command).Success? ==>
      && DecodeAscii(Frame(command).value) == Success(command + "\r\n")
      && HasEol(Frame(command).value)
  {
    if IsAscii(command) {
      var f := Bytes(command) + EOL;
      assert f[|command|] == CR && f[|command| + 1] == LF;
      assert AsciiBytes(f);
      assert Chars(f) == command + "\r\n";
    }
  }

  // ---------------------------------------------------------- the reader

  /** `line.startswith(tuple(self.codes_list))`. */
  predicate StartsWithLeadIn(line: seq<Byte>) {
    exists k | 0 <= k < |LEAD_INS| :: StartsWithText(line, LEAD_INS[k])
  }

  predicate StartsWithText(line: seq<Byte>, p: string) {
    |p| <= |line| && forall i | 0 <= i < |p| :: line[i] == p[i] as int
  }

  /** `self.eol in line`. */
  predicate HasEol(line: seq<Byte>) {
    exists i | 0 <= i < |line| - 1 :: line[i] == CR && line[i + 1] == LF
  }

  /** The bytes of the chunks among `evs`, in order. */
  function Received(evs: seq<Event>): seq<Byte> {
    if evs == [] then [] else (if evs[0].Chunk? then evs[0].data else []) + Received(evs[1..])
  }

  predicate AllChunks(evs: seq<Event>) {
    forall j | 0 <= j < |evs| :: evs[j].Chunk?
  }

  /** What is left of the input once the read at position `k` timed out. */
  function After(evs: seq<Event>, k: nat): seq<Event> {
    if k < |evs| then evs[k + 1..] else []
  }

  /** One read window: the chunk it delivered (`None` on timeout) and the rest. */
  function Next(evs: seq<Event>): (r: (Option<seq<Byte>>, seq<Event>))
    ensures r.0.Some? <==> evs != [] && evs[0].Chunk?
    ensures r.1 == After(evs, 0)
  {
    if evs == [] then (None, [])
    else match evs[0]
      case Timeout => (None, evs[1..])
      case Chunk(data) => (Some(data), evs[1..])
  }

  /** Where the byte accumulation of `_readline` ends: with the buffer it
      would decode, or with `line += None` raising after a timeout in the
      second phase. */
  datatype Acc = Buffered(line: seq<Byte>) | AppendedNone

  /** The first phase of `_readline`: append chunks until the buffer starts
      with a lead-in (keep it) or holds a terminator (drop it all); a timeout
      ends the read with whatever is buffered. */
  function Align(line: seq<Byte>, evs: seq<Event>): (Acc, seq<Event>)
    decreases |evs|
  {
    var (c, rest) := Next(evs);
    if c.None? then (Buffered(line), rest)
    else
      var line' := line + c.value;
      if StartsWithLeadIn(line') then Accumulate(line', rest)
      else if HasEol(line') then Accumulate([], rest)
      else Align(line', rest)
  }

  /** The second phase: append chunks until the buffer holds a terminator. */
  function Accumulate(line: seq<Byte>, evs: seq<Event>): (Acc, seq<Event>)
    decreases |evs|
  {
    if HasEol(line) then (Buffered(line), evs)
    else
      var (c, rest) := Next(evs);
      if c.None? then (AppendedNone, rest) else Accumulate(line + c.value, rest)
  }

  /** What `_readline` returns or raises on input `evs`, and the input left. */
  function ReadSpec(evs: seq<Event>): (Result<string, Error>, seq<Event>) {
    var (acc, rest) := Align([], evs);
    match acc
    case AppendedNone => (Failure(TypeError), rest)
    case Buffered(line) => (DecodeAscii(line), rest)
  }

  /** The buffer after the first `j` read windows of `evs`, starting from `line`. */
  function Buf(line: seq<Byte>, evs: seq<Event>, j: nat): seq<Byte>
    requires j <= |evs|
  {
    line + Received(evs[..j])
  }

  lemma BufStep(line: seq<Byte>, evs: seq<Event>, j: nat)
    requires 0 < j <= |evs| && evs[0].Chunk?
    ensures Buf(line, evs, j) == Buf(line + evs[0].data, evs[1..], j - 1)
  {
    assert evs[..j][0] == evs[0];
    assert evs[..j][1..] == evs[1..][..j - 1];
  }

  lemma BufZero(line: seq<Byte>, evs: seq<Event>)
    ensures Buf(line, evs, 0) == line
  {
    assert evs[..0] == [];
  }

  lemma ChunksStep(evs: seq<Event>, n: nat)
    requires 0 < n <= |evs| && AllChunks(evs[..n])
    ensures evs[0].Chunk? && AllChunks(evs[1..][..n - 1])
  {
    assert evs[..n][0] == evs[0];
    assert evs[1..][..n - 1] == evs[..n][1..];
  }

  /** No buffer of the second phase before the `k`-th window held a terminator. */
  ghost predicate Unterminated(line: seq<Byte>, evs: seq<Event>, k: nat)
    requires k <= |evs|
  {
    forall j | 0 <= j < k :: !HasEol(Buf(line, evs, j))
  }

  lemma UnterminatedStep(line: seq<Byte>, evs: seq<Event>, k: nat)
    requires 0 < k <= |evs| && evs[0].Chunk? && Unterminated(line, evs, k)
    ensures !HasEol(line) && Unterminated(line + evs[0].data, evs[1..], k - 1)
  {
    BufZero(line, evs);
    forall j | 0 <= j < k - 1 ensures !HasEol(Buf(line + evs[0].data, evs[1..], j)) {
      BufStep(line, evs, j + 1);
    }
  }

  /** Second phase: the line returned is the first buffer that holds a
      terminator, in full (terminator and any bytes after it included),
      and exactly the windows it took are consumed. */
  lemma {:induction false} AccumulateReturnsFirstTerminated(line: seq<Byte>, evs: seq<Event>, k: nat)
    requires k <= |evs| && AllChunks(evs[..k]) && Unterminated(line, evs, k)
    requires HasEol(Buf(line, evs, k))
    ensures Accumulate(line, evs) == (Buffered(Buf(line, evs, k)), evs[k..])
    decreases k
  {
    if k == 0 {
      BufZero(line, evs);
    } else {
      ChunksStep(evs, k);
      UnterminatedStep(line, evs, k);
      BufStep(line, evs, k);
      AccumulateReturnsFirstTerminated(line + evs[0].data, evs[1..], k - 1);
      assert evs[1..][k - 1..] == evs[k..];
    }
  }

  /** Second phase: a timeout before any terminator makes `line += c` raise. */
  lemma {:induction false} AccumulateTimeoutRaises(line: seq<Byte>, evs: seq<Event>, k: nat)
    requires k <= |evs| && AllChunks(evs[..k]) && Unterminated(line, evs, k)
    requires !HasEol(Buf(line, evs, k))
    requires k == |evs| || evs[k].Timeout?
    ensures Accumulate(line, evs) == (AppendedNone, After(evs, k))
    decreases k
  {
    if k == 0 {
      BufZero(line, evs);
    } else {
      ChunksStep(evs, k);
      UnterminatedStep(line, evs, k);
      BufStep(line, evs, k);
      AccumulateTimeoutRaises(line + evs[0].data, evs[1..], k - 1);
      assert After(evs[1..], k - 1) == After(evs, k);
    }
  }

  /** No buffer of the first phase after the first `k` windows started with a
      lead-in or held a terminator. */
  ghost predicate Unaligned(line: seq<Byte>, evs: seq<Event>, k: nat)
    requires k <= |evs|
  {
    forall j | 0 < j <= k :: !StartsWithLeadIn(Buf(line, evs, j)) && !HasEol(Buf(line, evs, j))
  }

  lemma UnalignedStep(line: seq<Byte>, evs: seq<Event>, k: nat)
    requires 0 < k <= |evs| && evs[0].Chunk? && Unaligned(line, evs, k)
    ensures !StartsWithLeadIn(line + evs[0].data) && !HasEol(line + evs[0].data)
    ensures Unaligned(line + evs[0].data, evs[1..], k - 1)
  {
    BufStep(line, evs, 1);
    BufZero(line + evs[0].data, evs[1..]);
    forall j | 0 < j <= k - 1
      ensures !StartsWithLeadIn(Buf(line + evs[0].data, evs[1..], j))
      ensures !HasEol(Buf(line + evs[0].data, evs[1..], j))
    {
      BufStep(line, evs, j + 1);
    }
  }

  /** First phase: once the buffer starts with a lead-in, it is kept and the
      second phase continues from it. */
  lemma {:induction false} AlignKeepsLeadIn(line: seq<Byte>, evs: seq<Event>, k: nat)
    requires k < |evs| && AllChunks(evs[..k + 1]) && Unaligned(line, evs, k)
    requires StartsWithLeadIn(Buf(line, evs, k + 1))
    ensures Align(line, evs) == Accumulate(Buf(line, evs, k + 1), evs[k + 1..])
    decreases k
  {
    ChunksStep(evs, k + 1);
    BufStep(line, evs, k + 1);
    if k == 0 {
      BufZero(line + evs[0].data, evs[1..]);
    } else {
      UnalignedStep(line, evs, k);
      AlignKeepsLeadIn(line + evs[0].data, evs[1..], k - 1);
      assert evs[1..][k..] == evs[k + 1..];
    }
  }

  /** First phase: a terminator before any lead-in means the read began in
      the middle of a line; the whole buffer is dropped, bytes after the
      terminator included, and the second phase starts from an empty buffer,
      with no lead-in check. */
  lemma {:induction false} AlignDiscardsOnEol(line: seq<Byte>, evs: seq<Event>, k: nat)
    requires k < |evs| && AllChunks(evs[..k + 1]) && Unaligned(line, evs, k)
    requires !StartsWithLeadIn(Buf(line, evs, k + 1)) && HasEol(Buf(line, evs, k + 1))
    ensures Align(line, evs) == Accumulate([], evs[k + 1..])
    decreases k
  {
    ChunksStep(evs, k + 1);
    BufStep(line, evs, k + 1);
    if k == 0 {
      BufZero(line + evs[0].data, evs[1..]);
    } else {
      UnalignedStep(line, evs, k);
      AlignDiscardsOnEol(line + evs[0].data, evs[1..], k - 1);
      assert evs[1..][k..] == evs[k + 1..];
    }
  }

  /** First phase: a timeout returns whatever is buffered, unaligned and
      unterminated (the empty line when nothing arrived). */
  lemma {:induction false} AlignTimeoutReturnsBuffer(line: seq<Byte>, evs: seq<Event>, k: nat)
    requires k <= |evs| && AllChunks(evs[..k]) && Unaligned(line, evs, k)
    requires k == |evs| || evs[k].Timeout?
    ensures Align(line, evs) == (Buffered(Buf(line, evs, k)), After(evs, k))
    decreases k
  {
    if k == 0 {
      BufZero(line, evs);
    } else {
      ChunksStep(evs, k);
      UnalignedStep(line, evs, k);
      BufStep(line, evs, k);
      AlignTimeoutReturnsBuffer(line + evs[0].data, evs[1..], k - 1);
      assert After(evs[1..], k - 1) == After(evs, k);
    }
  }

  /** `_readline`'s byte accumulation: a buffer reset to empty on resync,
      and two loops over the read windows. */
  method ReadBuffer(events: seq<Event>) returns (acc: Acc, rest: seq<Event>)
    ensures (acc, rest) == Align([], events)
  {
    var line: seq<Byte> := [];
    var c: Option<seq<Byte>> := None;
    rest := events;
    while true
      invariant Align(line, rest) == Align([], events)
      decreases |rest|
    {
      var next := Next(rest);
      c, rest := next.0, next.1;
      if c.None? {
        break;
      }
      line := line + c.value;
      if StartsWithLeadIn(line) {
        break;
      }
      if HasEol(line) {
        line := [];
        break;
      }
    }
    while true
      invariant c.None? ==> Align([], events) == (Buffered(line), rest)
      invariant c.Some? ==> Align([], events) == Accumulate(line, rest)
      decreases |rest|
    {
      if c.None? {
        break;
      }
      if HasEol(line) {
        break;
      }
      var next := Next(rest);
      c, rest := next.0, next.1;
      if c.None? {
        acc := AppendedNone;
        return;
      }
      line := line + c.value;
    }
    acc := Buffered(line);
  }

  /** `_read()` with no length: `None` when no byte is waiting, otherwise the
      waiting bytes. */
  function Poll(waiting: seq<Byte>): Option<seq<Byte>> {
    if waiting == [] then None else Some(waiting)
  }

  /** One read window of `_readline`: `_read()` is polled until it returns
      bytes; `window` holds what was waiting at each poll before the timeout. */
  method AwaitChunk(window: seq<seq<Byte>>) returns (e: Event)
    ensures e.Timeout? <==> forall i | 0 <= i < |window| :: window[i] == []
    ensures e.Chunk? ==> exists i | 0 <= i < |window| ::
      window[i] != [] && e.data == window[i] && forall j | 0 <= j < i :: window[j] == []
  {
    var c: Option<seq<Byte>> := None;
    var i := 0;
    while c.None? && i < |window|
      invariant 0 <= i <= |window|
      invariant c.None? ==> forall j | 0 <= j < i :: window[j] == []
      invariant c.Some? ==>
        && 0 < i && c.value == window[i - 1] && window[i - 1] != []
        && forall j | 0 <= j < i - 1 :: window[j] == []
    {
      c := Poll(window[i]);
      i := i + 1;
    }
    if c.None? {
      e := Timeout;
    } else {
      e := Chunk(c.value);
      assert window[i - 1] != [] && e.data == window[i - 1];
    }
  }

  /** `SerialDevice`: the port's pending input, what was sent on it and the
      `isOpen` flag. */
  class SerialDevice {
    const port: string
    var isOpen: bool
    var closed: bool
    /** What the port will deliver to the coming read windows. */
    var pending: seq<Event>
    /** The frames sent so far, oldest first. */
    var sent: seq<seq<Byte>>

    constructor (port: string, input: seq<Event>)
      ensures this.port == port && pending == input && sent == []
      ensures !isOpen && !closed
    {
      this.port := port;
      pending := input;
      sent := [];
      isOpen := false;
      closed := false;
    }

    /** `_write`: sends the ASCII bytes of `command` followed by "\r\n". */
    method Write(command: string) returns (r: Outcome<Error>)
      modifies this
      ensures Frame(command).Success? ==> r == Pass && sent == old(sent) + [Frame(command).value]
      ensures Frame(command).Failure? ==> r == Fail(Frame(command).error) && sent == old(sent)
      ensures pending == old(pending) && isOpen == old(isOpen) && closed == old(closed)
    {
      var bytes := EncodeAscii(command);
      if bytes.Failure? {
        r := Fail(bytes.error);
        return;
      }
      sent := sent + [bytes.value + EOL];
      r := Pass;
    }

    /** `_readline`: `isOpen` is set for the read and cleared when it returns
        normally; a timeout in the second phase raises with it still set. */
    method Readline() returns (r: Result<string, Error>)
      modifies this
      ensures (r, pending) == ReadSpec(old(pending))
      ensures isOpen <==> r == Failure(TypeError)
      ensures sent == old(sent) && closed == old(closed)
    {
      isOpen := true;
      var acc, rest := ReadBuffer(pending);
      pending := rest;
      if acc.AppendedNone? {
        r := Failure(TypeError);
        return;
      }
      isOpen := false;
      r := DecodeAscii(acc.line);
    }

    /** `_write_readline`: `self._write(command)` is called without `await`,
        so the coroutine never runs and nothing is sent; the read is the one
        of `_readline`. */
    method WriteReadline(command: string) returns (r: Result<string, Error>)
      modifies this
      ensures (r, pending) == ReadSpec(old(pending))
      ensures isOpen <==> r == Failure(TypeError)
      ensures sent == old(sent) && closed == old(closed)
    {
      r := Readline();
    }

    /** `close`. */
    method Close()
      modifies this
      ensures !isOpen && closed
      ensures pending == old(pending) && sent == old(sent)
    {
      isOpen := false;
      closed := true;
    }
  }
}
