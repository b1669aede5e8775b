/** The Just4Trionic adapter: configuration resolution (`New`, `setCANrate`),
    the handshake `Init` writes, `Close`, the read side (`parse`) and one send
    of `sendManager`. The serial port is an abstract object that records what
    was done to it and is told in advance which writes will fail. */
module Just4Trionic {
  import opened Text
  import opened Codec
  import Framer

  /** The errors the adapter returns. */
  datatype Error =
    | UnknownRate(rate: real)   // from setCANrate: the rate is not in the table
    | WriteError                // a write to the serial port failed

  /** What happens to the serial port. */
  datatype Event =
    | Wrote(data: string)
    | WriteFailed(data: string)
    | InputReset
    | OutputReset
    | PortClosed

  /** Whether the i-th write from now succeeds: writes beyond the outcomes
      the port was given succeed. */
  function Succeeds(outcomes: seq<bool>, i: nat): bool
  {
    i >= |outcomes| || outcomes[i]
  }

  function Drop(outcomes: seq<bool>, n: nat): seq<bool>
  {
    if n <= |outcomes| then outcomes[n..] else []
  }

  /** An opened serial port. `outcomes` lists, in order, whether each coming
      write will succeed; `log` records what was done to the port. */
  class Port {
    var log: seq<Event>
    var outcomes: seq<bool>

    constructor (outcomes: seq<bool>)
      ensures log == [] && this.outcomes == outcomes
    {
      log := [];
      this.outcomes := outcomes;
    }

    method Write(data: string) returns (ok: bool)
      modifies this
      ensures ok == Succeeds(old(outcomes), 0)
      ensures outcomes == Drop(old(outcomes), 1)
      ensures log == old(log) + [if ok then Wrote(data) else WriteFailed(data)]
    {
      ok := Succeeds(outcomes, 0);
      outcomes := Drop(outcomes, 1);
      log := log + [if ok then Wrote(data) else WriteFailed(data)];
    }

    method ResetInputBuffer()
      modifies this
      ensures log == old(log) + [InputReset] && outcomes == old(outcomes)
    {
      log := log + [InputReset];
    }

    method ResetOutputBuffer()
      modifies this
      ensures log == old(log) + [OutputReset] && outcomes == old(outcomes)
    {
      log := log + [OutputReset];
    }

    method Close()
      modifies this
      ensures log == old(log) + [PortClosed] && outcomes == old(outcomes)
    {
      log := log + [PortClosed];
    }
  }

  // ---------------------------------------------------------------------
  // Configuration
  // ---------------------------------------------------------------------

  /** The filter identifiers `New` recognises and the command each selects. */
  function FilterToken(f: nat): (r: Option<string>)
    ensures r.Some? <==> f in {0x05, 0x220, 0x7E0}
    ensures r.Some? ==> |r.value| == 2 && (r.value[0] == 't' || r.value[0] == 'f')
  {
    if f == 0x05 then Some("t5")
    else if f == 0x220 then Some("f7")
    else if f == 0x7E0 then Some("f8")
    else None
  }

  /** `token` is the command of the first recognised filter, or empty when no
      filter is recognised. */
  ghost predicate FirstMatch(filters: seq<nat>, token: string)
  {
    (token == "" && forall i :: 0 <= i < |filters| ==> FilterToken(filters[i]).None?) ||
    (exists i :: 0 <= i < |filters| && FilterToken(filters[i]) == Some(token) &&
                 forall j :: 0 <= j < i ==> FilterToken(filters[j]).None?)
  }

  /** FirstMatch names one token only. */
  lemma FirstMatchUnique(filters: seq<nat>, a: string, b: string)
    requires FirstMatch(filters, a) && FirstMatch(filters, b)
    ensures a == b
  {
    if a != "" && b != "" {
      var i :| 0 <= i < |filters| && FilterToken(filters[i]) == Some(a) &&
               forall j :: 0 <= j < i ==> FilterToken(filters[j]).None?;
      var k :| 0 <= k < |filters| && FilterToken(filters[k]) == Some(b) &&
               forall j :: 0 <= j < k ==> FilterToken(filters[j]).None?;
      if i != k {
        assert false;
      }
    }
  }

  /** The ten rates `setCANrate` accepts. */
  const SupportedRates: set<real> := {10.0, 20.0, 50.0, 100.0, 125.0, 250.0, 500.0, 615.384, 800.0, 1000.0}

  /** The switch in `setCANrate`: the bit-rate command for a rate in kbit/s,
      compared by exact equality. */
  function RateToken(rate: real): (r: Option<string>)
    ensures r.Some? <==> rate in SupportedRates
    ensures r.Some? ==> |r.value| == 2 && (r.value[0] == 'S' || r.value == "s2")
  {
    if rate == 10.0 then Some("S0")
    else if rate == 20.0 then Some("S1")
    else if rate == 50.0 then Some("S2")
    else if rate == 100.0 then Some("S3")
    else if rate == 125.0 then Some("S4")
    else if rate == 250.0 then Some("S5")
    else if rate == 500.0 then Some("S6")
    else if rate == 615.384 then Some("s2")
    else if rate == 800.0 then Some("S7")
    else if rate == 1000.0 then Some("S8")
    else None
  }

  /** Different rates select different commands. */
  lemma RateTokensDistinct(a: real, b: real)
    requires RateToken(a).Some? && RateToken(a) == RateToken(b)
    ensures a == b
  {
  }

  /** The ESC character, which empties the adapter's command buffer. */
  const Esc: string := [27 as char]

  /** The commands `Init` writes, each followed by CR: ESC (empty the
      adapter's buffer), "O" (open the CAN channel), the filter, the rate. */
  function Commands(filter: string, canRate: string): (cmds: seq<string>)
    ensures |cmds| == 4 && cmds[..2] == [Esc, "O"] && cmds[2..] == [filter, canRate]
  {
    [Esc, "O", filter, canRate]
  }

  /** What happens to the port before the n-th command (from 0) is written:
      the input buffer is reset before the fourth. */
  function BeforeWrite(n: nat): seq<Event>
  {
    if n == 3 then [InputReset] else []
  }

  /** What happens to the port while the first n commands are written
      successfully. */
  function Attempted(cmds: seq<string>, n: nat): seq<Event>
    requires n <= |cmds|
  {
    if n == 0 then [] else Attempted(cmds, n - 1) + BeforeWrite(n - 1) + [Wrote(cmds[n - 1] + "\r")]
  }

  /** The data of the successful writes among some events. */
  function Sent(events: seq<Event>): seq<string>
  {
    if events == [] then []
    else Sent(events[..|events| - 1]) + (if events[|events| - 1].Wrote? then [events[|events| - 1].data] else [])
  }

  lemma {:induction false} SentConcat(a: seq<Event>, b: seq<Event>)
    ensures Sent(a + b) == Sent(a) + Sent(b)
    decreases |b|
  {
    if b != [] {
      assert (a + b)[..|a + b| - 1] == a + b[..|b| - 1];
      SentConcat(a, b[..|b| - 1]);
    } else {
      assert a + b == a;
    }
  }

  /** Writing one more command adds exactly that command to what was sent. */
  lemma SentOneMore(cmds: seq<string>, n: nat)
    requires 0 < n <= |cmds|
    ensures Sent(Attempted(cmds, n)) == Sent(Attempted(cmds, n - 1)) + [cmds[n - 1] + "\r"]
  {
    var prev, before := Attempted(cmds, n - 1), BeforeWrite(n - 1);
    var w: seq<Event> := [Wrote(cmds[n - 1] + "\r")];
    assert Attempted(cmds, n) == prev + before + w;
    SentConcat(prev, before);
    SentConcat(prev + before, w);
    assert Sent(before) == [] by {
      if n - 1 == 3 {
        assert before[..0] == [];
      }
    }
    assert Sent(w) == [cmds[n - 1] + "\r"] by {
      assert w[..0] == [];
    }
  }

  /** Writing the first n commands sends exactly those commands, in order,
      each terminated by CR. */
  lemma {:induction false} AttemptedSendsInOrder(cmds: seq<string>, n: nat)
    requires n <= |cmds|
    ensures |Sent(Attempted(cmds, n))| == n
    ensures forall i :: 0 <= i < n ==> Sent(Attempted(cmds, n))[i] == cmds[i] + "\r"
  {
    if n > 0 {
      AttemptedSendsInOrder(cmds, n - 1);
      SentOneMore(cmds, n);
    }
  }

  /** The input buffer is reset only on the way to the fourth command. */
  lemma {:induction false} InputResetOnlyBeforeRate(cmds: seq<string>, n: nat)
    requires n <= |cmds|
    ensures InputReset in Attempted(cmds, n) <==> n >= 4
  {
    if n > 0 {
      InputResetOnlyBeforeRate(cmds, n - 1);
    }
  }

  /** A handshake in which every write succeeds writes ESC, "O", the filter
      (a bare CR when unfiltered), then resets the input and writes the rate. */
  lemma HandshakeWhenAllWritesSucceed(filter: string, canRate: string)
    ensures Attempted(Commands(filter, canRate), 4) ==
            [Wrote(Esc + "\r"), Wrote("O\r"), Wrote(filter + "\r"), InputReset, Wrote(canRate + "\r")]
  {
    var cmds := Commands(filter, canRate);
    assert BeforeWrite(0) == [] && BeforeWrite(1) == [] && BeforeWrite(2) == [];
    assert Attempted(cmds, 1) == [Wrote(Esc + "\r")];
    assert cmds[1] + "\r" == "O\r";
    assert Attempted(cmds, 2) == Attempted(cmds, 1) + [] + [Wrote(cmds[1] + "\r")];
    assert Attempted(cmds, 2) == [Wrote(Esc + "\r"), Wrote("O\r")];
    assert Attempted(cmds, 3) == [Wrote(Esc + "\r"), Wrote("O\r"), Wrote(filter + "\r")];
  }

  // ---------------------------------------------------------------------
  // The adapter
  // ---------------------------------------------------------------------

  class Adapter {
    var filter: string
    var canRate: string
    var closed: bool
    var port: Port?
    // the read side: `recvManager`'s line buffer, the inbound queue and
    // whether the read goroutine has panicked
    var buff: seq<byte>
    var recv: seq<Frame>
    var crashed: bool

    function ReadState(): Framer.Reader
      reads this
    {
      Framer.Reader(buff, recv, crashed)
    }

    constructor ()
      ensures filter == "" && canRate == "" && !closed && port == null
      ensures buff == [] && recv == [] && !crashed
    {
      filter, canRate, closed, port := "", "", false, null;
      buff, recv, crashed := [], [], false;
    }

    /** `New`: the filter is the command of the first recognised filter
        identifier; an unsupported rate makes construction fail. */
    static method New(filters: seq<nat>, rate: real) returns (a: Adapter?, err: Option<Error>)
      ensures err.None? <==> rate in SupportedRates
      ensures err.Some? ==> a == null && err == Some(UnknownRate(rate))
      ensures err.None? ==> a != null && fresh(a) && FirstMatch(filters, a.filter) &&
                            Some(a.canRate) == RateToken(rate) &&
                            !a.closed && a.port == null && a.ReadState() == Framer.Reader([], [], false)
    {
      var adapter := new Adapter();
      adapter.filter := ScanFilters(filters);
      err := adapter.SetCANrate(rate);
      if err.Some? {
        return null, err;
      }
      a := adapter;
    }

    /** `setCANrate`: a supported rate sets its command; any other rate
        returns an error and leaves the field as it was. */
    method SetCANrate(rate: real) returns (err: Option<Error>)
      modifies this`canRate
      ensures rate in SupportedRates ==> err == None && Some(canRate) == RateToken(rate)
      ensures rate !in SupportedRates ==> err == Some(UnknownRate(rate)) && canRate == old(canRate)
    {
      match RateToken(rate)
      case Some(token) =>
        canRate := token;
        err := None;
      case None =>
        err := Some(UnknownRate(rate));
    }

    /** `Init` on an opened port: clear the output buffer, then write the four
        commands in order, resetting the input buffer before the fourth. The
        first write that fails closes the port and ends the handshake. */
    method Init(p: Port) returns (err: Option<Error>)
      modifies this`port, p
      ensures port == p
      ensures var outs := old(p.outcomes);
              err.None? <==> forall i :: 0 <= i < 4 ==> Succeeds(outs, i)
      ensures err.None? ==>
                p.log == old(p.log) + [OutputReset] + Attempted(Commands(filter, canRate), 4) &&
                p.outcomes == Drop(old(p.outcomes), 4)
      ensures forall k :: 0 <= k < 4 && !Succeeds(old(p.outcomes), k) &&
                          (forall i :: 0 <= i < k ==> Succeeds(old(p.outcomes), i)) ==>
                err == Some(WriteError) &&
                p.log == old(p.log) + [OutputReset] + Attempted(Commands(filter, canRate), k) + BeforeWrite(k) +
                         [WriteFailed(Commands(filter, canRate)[k] + "\r"), PortClosed] &&
                p.outcomes == Drop(old(p.outcomes), k + 1)
    {
      port := p;
      p.ResetOutputBuffer();
      var cmds := Commands(filter, canRate);
      var n := 0;
      while n < |cmds|
        invariant 0 <= n <= |cmds| == 4
        invariant forall i :: 0 <= i < n ==> Succeeds(old(p.outcomes), i)
        invariant p.log == old(p.log) + [OutputReset] + Attempted(cmds, n)
        invariant p.outcomes == Drop(old(p.outcomes), n)
        invariant port == p
      {
        if n == 3 {
          p.ResetInputBuffer();
        }
        assert Succeeds(p.outcomes, 0) == Succeeds(old(p.outcomes), n);
        var ok := p.Write(cmds[n] + "\r");
        if !ok {
          p.Close();
          return Some(WriteError);
        }
        n := n + 1;
      }
      err := None;
    }

    /** `Close`: mark the adapter closed, send ESC (its outcome is not
        checked) and close the port. */
    method Close()
      requires port != null
      modifies this`closed, port
      ensures closed
      ensures port.log == old(port.log) +
                          [if Succeeds(old(port.outcomes), 0) then Wrote(Esc) else WriteFailed(Esc), PortClosed]
      ensures port.outcomes == Drop(old(port.outcomes), 1)
    {
      closed := true;
      var _ := port.Write(Esc);
      port.Close();
    }

    /** `parse`: feed one chunk read from the port through the framer. */
    method Parse(chunk: seq<byte>)
      requires !crashed
      modifies this`buff, this`recv, this`crashed
      ensures ReadState() == Framer.Parse(old(ReadState()), chunk)
    {
      ghost var start := ReadState();
      for i := 0 to |chunk|
        invariant !crashed
        invariant ReadState() == Framer.Parse(start, chunk[..i])
      {
        var b := chunk[i];
        assert chunk[..i + 1] == chunk[..i] + [b];
        Framer.ParseChunks(start, chunk[..i], [b]);
        Framer.RunOne(Framer.Step, ReadState(), b);
        if b == CR || b == LF {
          if |buff| == 0 {
            continue;
          }
        }
        if b == LF {
          var line := buff;
          if line[0] == Framer.Tag {
            // `by[1:0]` panics; a shorter body whose identifier reads as
            // hex panics on `buff[3]`; otherwise ParseUint fails first
            if |line| == 1 || (|line| < 6 && AllHex(Framer.IdentifierBytes(line))) {
              crashed := true;
              Framer.CrashedRest(start, chunk, i + 1);
              return;
            }
            if |line| < 6 {
              continue;
            }
            match DecodeFrame(Framer.LineBody(line))
            case Err(_) =>
              continue;
            case Panic =>
              crashed := true;
              Framer.CrashedRest(start, chunk, i + 1);
              return;
            case Ok(f) =>
              if |recv| < Framer.Capacity {
                recv := recv + [f];
              }
              buff := [];
          }
          buff := [];
          continue;
        }
        buff := buff + [b];
      }
      assert chunk[..|chunk|] == chunk;
    }

    /** A receive from the inbound queue (`Recv()`): the oldest frame, if any. */
    method Recv() returns (f: Option<Frame>)
      modifies this`recv
      ensures old(recv) == [] ==> f == None && recv == []
      ensures old(recv) != [] ==> f == Some(old(recv)[0]) && recv == old(recv)[1..]
    {
      if recv == [] {
        f := None;
      } else {
        f := Some(recv[0]);
        recv := recv[1..];
      }
    }

    /** One frame taken by `sendManager`: encode it and write the line; a
        failed write is only logged. */
    method Transmit(v: Frame)
      requires port != null
      modifies port
      ensures port.log == old(port.log) +
                          [if Succeeds(old(port.outcomes), 0) then Wrote(FrameLine(v)) else WriteFailed(FrameLine(v))]
      ensures port.outcomes == Drop(old(port.outcomes), 1)
    {
      var f := EncodeFrame(v);
      var _ := port.Write(f);
    }
  }

  /** The filter scan in `New`: the first recognised identifier wins. */
  method ScanFilters(filters: seq<nat>) returns (filter: string)
    ensures FirstMatch(filters, filter)
  {
    filter := "";
    var i := 0;
    while i < |filters|
      invariant 0 <= i <= |filters|
      invariant forall j :: 0 <= j < i ==> FilterToken(filters[j]).None?
    {
      var f := filters[i];
      if f == 0x05 {
        filter := "t5";
        break;
      }
      if f == 0x220 {
        filter := "f7";
        break;
      }
      if f == 0x7E0 {
        filter := "f8";
        break;
      }
      i := i + 1;
    }
  }
}
