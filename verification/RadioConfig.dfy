/** Loading the radio's configuration: a length-prefixed command list sent under a CTS handshake. */
module RadioConfig {
  import opened Bytes

  const CTS_TIMEOUT: nat := 0xFFFF
  const CTS: byte := 0xFF
  const MAX_COMMAND := 16
  const GET_INT_STATUS: byte := 0x20
  const STATUS_REPLY := 8

  datatype Result = Success | CtsTimeout | CommandError

  // One command on the bus: the bytes clocked out, whether it came from the
  // configuration list, how many polls then failed to read CTS, whether one did, and
  // the bytes the chip sent behind it.
  datatype Exchange = Exchange(bytes: seq<byte>, config: bool, misses: nat, cts: bool, reply: seq<byte>)

  type Answer = s: seq<byte> | |s| == MAX_COMMAND witness seq(MAX_COMMAND, _ => 0)

  // Everything the chip will do: what it shows for CTS at each poll and sends behind it
  // if that is CTS, and whether the interrupt line is low at each look.
  datatype Chip = Chip(cts: nat -> byte, data: nat -> Answer, low: nat -> bool)

  // e was polled for from the given poll on, at most 65535 times and until CTS; its
  // reply is what the chip sent behind CTS.
  ghost predicate Polled(chip: Chip, from: nat, e: Exchange, count: nat)
    requires count <= MAX_COMMAND
  {
    && (forall j :: from <= j < from + e.misses ==> chip.cts(j) != 0xFF)
    && if e.cts then
         e.misses < 0xFFFF && chip.cts(from + e.misses) == 0xFF && e.reply == chip.data(from + e.misses)[..count]
       else
         e.misses == 0xFFFF && e.reply == []
  }

  // The chip was asked for its status and reported a command error.
  predicate ReportsError(e: Exchange) {
    !e.config && e.cts && |e.reply| == 8 && e.reply[6] / 8 % 2 == 1
  }

  predicate ErrorRead(e: Exchange) {
    !e.config && (e.cts ==> ReportsError(e))
  }

  ghost predicate ErrorFree(log: seq<Exchange>, from: nat) {
    forall i :: from <= i < |log| ==> !ReportsError(log[i])
  }

  function Configs(log: seq<Exchange>): seq<Exchange> {
    if log == [] then []
    else Configs(log[..|log| - 1]) + (if log[|log| - 1].config then [log[|log| - 1]] else [])
  }

  lemma ConfigsSnoc(log: seq<Exchange>, e: Exchange)
    ensures Configs(log + [e]) == Configs(log) + (if e.config then [e] else [])
  {
    assert (log + [e])[..|log|] == log;
  }

  // ---------- The list ----------

  predicate IsLength(n: byte) {
    1 <= n <= MAX_COMMAND
  }

  // Reading the list stays inside it: it ends in 0, or in a length the loop refuses.
  predicate WellFormed(list: seq<byte>) {
    list != [] && (IsLength(list[0]) ==> list[0] as int < |list| && WellFormed(list[list[0] as int + 1..]))
  }

  function Commands(list: seq<byte>): seq<seq<byte>>
    requires WellFormed(list)
  {
    if !IsLength(list[0]) then []
    else [list[1..list[0] as int + 1]] + Commands(list[list[0] as int + 1..])
  }

  function Ending(list: seq<byte>): byte
    requires WellFormed(list)
  {
    if !IsLength(list[0]) then list[0] else Ending(list[list[0] as int + 1..])
  }

  function Pack(cmds: seq<seq<byte>>): seq<byte>
    requires forall i :: 0 <= i < |cmds| ==> 1 <= |cmds[i]| <= MAX_COMMAND
  {
    if cmds == [] then [] else [|cmds[0]| as byte] + cmds[0] + Pack(cmds[1..])
  }

  // Packing commands of 1 to 16 bytes and ending them makes a list that reads back
  // as those commands, whatever follows the end.
  lemma {:induction false} PackedListReadsBack(cmds: seq<seq<byte>>, end: byte, junk: seq<byte>)
    requires forall i :: 0 <= i < |cmds| ==> 1 <= |cmds[i]| <= MAX_COMMAND
    requires !IsLength(end)
    ensures var list := Pack(cmds) + [end] + junk;
      WellFormed(list) && Commands(list) == cmds && Ending(list) == end
  {
    var list := Pack(cmds) + [end] + junk;
    if cmds != [] {
      var n, rest := |cmds[0]|, Pack(cmds[1..]) + [end] + junk;
      PackedListReadsBack(cmds[1..], end, junk);
      assert list == [n as byte] + cmds[0] + rest;
      assert list[n + 1..] == rest && list[1..n + 1] == cmds[0];
    }
  }

  // A one-byte command is padded to two by the bus; all others go out as they are.
  predicate Carries(e: Exchange, cmd: seq<byte>) {
    e.config && cmd <= e.bytes && |e.bytes| == (if |cmd| == 1 then 2 else |cmd|)
  }

  // CTS was read within the allowed number of polls.
  predicate Answered(e: Exchange) {
    e.cts && e.misses < 0xFFFF
  }

  // The exchanges carry a prefix of the commands, one for one.
  ghost predicate Carried(es: seq<Exchange>, cmds: seq<seq<byte>>) {
    |es| <= |cmds| && forall i :: 0 <= i < |es| ==> Carries(es[i], cmds[i])
  }

  // The first n exchanges were answered.
  ghost predicate AllAnswered(es: seq<Exchange>, n: nat) {
    n <= |es| && forall i :: 0 <= i < n ==> Answered(es[i])
  }

  // What a finished run may say for itself.
  ghost predicate Explained(r: Result, es: seq<Exchange>, cmds: seq<seq<byte>>, ending: byte, errorPending: bool) {
    match r
    case Success => |es| == |cmds| && AllAnswered(es, |es|) && ending == 0
    case CtsTimeout => es != [] && !es[|es| - 1].cts && es[|es| - 1].misses == 0xFFFF
    case CommandError =>
      AllAnswered(es, |es|) && (errorPending || (|es| == |cmds| && ending > 16))
  }

  // Between two turns: what is left of the list is what has not been sent.
  ghost predicate Progress(es: seq<Exchange>, cmds: seq<seq<byte>>, rest: seq<byte>) {
    && WellFormed(rest) && Carried(es, cmds) && AllAnswered(es, |es|)
    && Commands(rest) == cmds[|es|..]
  }

  lemma OneMore(es: seq<Exchange>, cmds: seq<seq<byte>>, e: Exchange, rest: seq<byte>)
    requires Progress(es, cmds, rest) && IsLength(rest[0]) && |es| < |cmds| && Carries(e, cmds[|es|])
    requires Commands(rest[rest[0] as int + 1..]) == cmds[|es| + 1..]
    ensures Carried(es + [e], cmds) && AllAnswered(es + [e], |es|)
    ensures Answered(e) ==> Progress(es + [e], cmds, rest[rest[0] as int + 1..])
  {
  }

  class Radio {
    const pro2Cmd: array<byte>
    const chip: Chip
    var polls: nat                  // polls made so far
    var looks: nat                  // looks at the interrupt line so far
    var ctsWentHigh: bool
    var intStatus: seq<byte>        // the last interrupt status read, field by field
    ghost var log: seq<Exchange>

    // The flag tells whether the latest command has been answered.
    ghost predicate Valid()
      reads this
    {
      && pro2Cmd.Length == MAX_COMMAND
      && |intStatus| == STATUS_REPLY
      && (ctsWentHigh <==> log != [] && log[|log| - 1].cts)
    }

    constructor (chip: Chip)
      ensures Valid() && log == [] && fresh(pro2Cmd) && this.chip == chip
    {
      this.chip, polls, looks := chip, 0, 0;
      pro2Cmd := new byte[MAX_COMMAND];
      ctsWentHigh, intStatus, log := false, seq(STATUS_REPLY, _ => 0), [];
    }

    // Writes byteCount bytes of the shared buffer to the chip.
    method SendCmd(byteCount: nat, ghost config: bool)
      requires Valid() && 1 <= byteCount <= MAX_COMMAND
      modifies this`ctsWentHigh, this`log
      ensures Valid()
      ensures log == old(log) + [Exchange(pro2Cmd[..if byteCount == 1 then 2 else byteCount], config, 0, false, [])]
    {
      var n := byteCount;
      if n == 1 {
        n := n + 1;
      }
      log := log + [Exchange(pro2Cmd[..n], config, 0, false, [])];
      ctsWentHigh := false;
    }

    // Polls for CTS, then reads a reply of byteCount bytes into the shared buffer.
    method GetResp(byteCount: nat) returns (ctsVal: byte)
      requires Valid() && log != [] && byteCount <= MAX_COMMAND
      modifies this`ctsWentHigh, this`log, this`polls, pro2Cmd
      ensures Valid() && |log| == |old(log)|
      ensures var last, sent := log[|log| - 1], old(log)[|log| - 1];
        && log == old(log)[..|log| - 1] + [last]
        && last.bytes == sent.bytes && last.config == sent.config && last.cts == (ctsVal == 0xFF)
        && Polled(chip, old(polls), last, byteCount)
        && polls == old(polls) + last.misses + (if last.cts then 1 else 0)
        && (last.cts ==> pro2Cmd[..byteCount] == last.reply)
      ensures byteCount == 0 ==> pro2Cmd[..] == old(pro2Cmd[..])
    {
      var errCnt: nat := CTS_TIMEOUT;
      ctsVal := 0;
      ghost var from := polls;
      while errCnt != 0
        invariant errCnt <= CTS_TIMEOUT && ctsVal != CTS
        invariant polls == from + CTS_TIMEOUT - errCnt
        invariant forall j :: from <= j < polls ==> chip.cts(j) != 0xFF
        invariant pro2Cmd[..] == old(pro2Cmd[..])
        decreases errCnt
        modifies this`polls, pro2Cmd
      {
        ctsVal := chip.cts(polls);
        polls := polls + 1;
        if ctsVal == CTS {
          ReadData(byteCount, chip.data(polls - 1));
          break;
        }
        errCnt := errCnt - 1;
      }
      if errCnt == 0 {
        ctsWentHigh := false;
      }
      if ctsVal == CTS {
        ctsWentHigh := true;
      }
      ghost var reply := if ctsVal == CTS then pro2Cmd[..byteCount] else [];
      log := log[|log| - 1 := log[|log| - 1].(misses := CTS_TIMEOUT - errCnt, cts := ctsVal == CTS, reply := reply)];
    }

    // The bus, reading.
    method ReadData(byteCount: nat, answer: Answer)
      requires pro2Cmd.Length == MAX_COMMAND && byteCount <= MAX_COMMAND
      modifies pro2Cmd
      ensures pro2Cmd[..byteCount] == answer[..byteCount]
      ensures byteCount == 0 ==> pro2Cmd[..] == old(pro2Cmd[..])
    {
      forall i | 0 <= i < byteCount {
        pro2Cmd[i] := answer[i];
      }
    }

    method SendCmdGetResp(byteCount: nat, ghost config: bool, respCount: nat) returns (ctsVal: byte)
      requires Valid() && 1 <= byteCount <= MAX_COMMAND && respCount <= MAX_COMMAND
      modifies this`ctsWentHigh, this`log, this`polls, pro2Cmd
      ensures Valid() && |log| == |old(log)| + 1
      ensures var last := log[|log| - 1];
        && log == old(log) + [last]
        && last.bytes == old(pro2Cmd[..if byteCount == 1 then 2 else byteCount]) && last.config == config
        && last.cts == (ctsVal == 0xFF)
        && Polled(chip, old(polls), last, respCount)
        && polls == old(polls) + last.misses + (if last.cts then 1 else 0)
        && (last.cts ==> pro2Cmd[..respCount] == last.reply)
    {
      SendCmd(byteCount, config);
      ctsVal := GetResp(respCount);
    }

    // The shared buffer serves as command and reply; a failed poll leaves the
    // status of the last successful one.
    method GetIntStatus() returns (ok: bool)
      requires Valid()
      modifies this`ctsWentHigh, this`log, this`polls, this`intStatus, pro2Cmd
      ensures Valid() && |log| == |old(log)| + 1
      ensures var query := log[|old(log)|];
        && log == old(log) + [query] && !query.config && query.bytes == [0x20, 0, 0, 0]
        && ok == query.cts && Polled(chip, old(polls), query, 8)
        && intStatus == if ok then query.reply else old(intStatus)
    {
      pro2Cmd[0], pro2Cmd[1], pro2Cmd[2], pro2Cmd[3] := GET_INT_STATUS, 0, 0, 0;
      assert pro2Cmd[..4] == [GET_INT_STATUS, 0, 0, 0];
      var cts := SendCmdGetResp(4, false, STATUS_REPLY);
      ok := cts == CTS;
      if ok {
        intStatus := pro2Cmd[..STATUS_REPLY];
      }
    }

    predicate CommandErrorPending()
      reads this
      requires |intStatus| == STATUS_REPLY
    {
      intStatus[6] / 8 % 2 == 1
    }

    // Copies one command into the shared buffer and sends it.
    method Configure(cmd: seq<byte>) returns (ctsVal: byte, ghost e: Exchange)
      requires Valid() && 1 <= |cmd| <= MAX_COMMAND
      modifies this`ctsWentHigh, this`log, this`polls, pro2Cmd
      ensures Valid() && log == old(log) + [e] && Carries(e, cmd)
      ensures e.cts == (ctsVal == 0xFF) && Polled(chip, old(polls), e, 0)
      ensures polls == old(polls) + e.misses + (if e.cts then 1 else 0)
    {
      for col := 0 to |cmd|
        invariant pro2Cmd[..col] == cmd[..col]
        modifies pro2Cmd
      {
        pro2Cmd[col] := cmd[col];
      }
      assert pro2Cmd[..|cmd|] == cmd;
      ctsVal := SendCmdGetResp(|cmd|, true, 0);
      e := log[|log| - 1];
    }

    // si446x_configuration_init, against any chip and any interrupt line.
    method ConfigurationInit(list: seq<byte>) returns (r: Result, ghost sent: seq<Exchange>)
      requires Valid() && WellFormed(list)
      modifies this, pro2Cmd
      ensures Valid() && old(log) <= log
      // what was sent from the list, in order, is a prefix of the list ...
      ensures Configs(log) == old(Configs(log)) + sent && Carried(sent, Commands(list))
      // ... and nothing was sent before its predecessor had been answered.
      ensures sent != [] ==> AllAnswered(sent, |sent| - 1)
      ensures Explained(r, sent, Commands(list), Ending(list), CommandErrorPending())
      // The chip reported an error at most once, and if so the loading ended there; an
      // error that is not about the list ended it behind a query that, if it was
      // answered, reported one.
      ensures r == CommandError ==> (
        (|sent| == |Commands(list)| && Ending(list) > 16) || (log != [] && ErrorRead(log[|log| - 1])))
      ensures r != CommandError ==> ErrorFree(log, |old(log)|)
      ensures ErrorFree(log, |old(log)|) || (r == CommandError && ErrorFree(log[..|log| - 1], |old(log)|))
    {
      sent := [];
      ghost var start, cmds := Configs(log), Commands(list);
      var rest := list;  // what the advancing pointer still points at
      while rest[0] != 0
        invariant Valid() && old(log) <= log && ErrorFree(log, |old(log)|)
        invariant WellFormed(rest) && Ending(rest) == Ending(list)
        invariant Configs(log) == start + sent
        invariant Progress(sent, cmds, rest)
        decreases |rest|
      {
        var n := rest[0] as int;
        if n > MAX_COMMAND {
          return CommandError, sent;
        }
        ghost var before := log;
        r, sent := LoadNext(rest, start, sent, cmds);
        StillErrorFree(before, log, |old(log)|);
        if r != Success {
          return r, sent;
        }
        rest := rest[n + 1..];
      }
      r := Success;
    }

    // One turn of the loop, for the command in front of rest.
    method LoadNext(rest: seq<byte>, ghost start: seq<Exchange>, ghost sent: seq<Exchange>, ghost cmds: seq<seq<byte>>)
      returns (r: Result, ghost sent': seq<Exchange>)
      requires Valid() && WellFormed(rest) && IsLength(rest[0])
      requires Configs(log) == start + sent && Progress(sent, cmds, rest)
      modifies this, pro2Cmd
      ensures Valid() && Configs(log) == start + sent' && |sent'| == |sent| + 1 && Carried(sent', cmds)
      ensures AllAnswered(sent', |sent|) && sent'[..|sent|] == sent
      ensures var e := sent'[|sent|];
        if r == CtsTimeout then !e.cts && e.misses == 0xFFFF
        else Progress(sent', cmds, rest[rest[0] as int + 1..])
      ensures r == CommandError ==> CommandErrorPending()
      ensures r == CommandError ==> ErrorRead(log[|log| - 1])
      ensures old(log) < log && ErrorFree(log[..|log| - 1], |old(log)|)
      ensures r != CommandError ==> ErrorFree(log, |old(log)|)
    {
      var n := rest[0] as int;
      NextCommand(cmds, |sent|, rest);
      ghost var e;
      r, e := ConfigureNext(rest[1..n + 1], start, sent);
      OneMore(sent, cmds, e, rest);
      sent' := sent + [e];
    }

    // The same, for the command by itself.
    method ConfigureNext(cmd: seq<byte>, ghost start: seq<Exchange>, ghost sent: seq<Exchange>)
      returns (r: Result, ghost e: Exchange)
      requires Valid() && 1 <= |cmd| <= MAX_COMMAND && Configs(log) == start + sent
      modifies this, pro2Cmd
      ensures Valid() && Configs(log) == start + (sent + [e]) && Carries(e, cmd)
      ensures if r == CtsTimeout then !e.cts && e.misses == 0xFFFF else Answered(e)
      ensures r == CommandError ==> CommandErrorPending()
      ensures r == CommandError ==> ErrorRead(log[|log| - 1])
      ensures old(log) < log && ErrorFree(log[..|log| - 1], |old(log)|)
      ensures r != CommandError ==> ErrorFree(log, |old(log)|)
    {
      ghost var before := log;
      ghost var query, from;
      var looked;
      r, looked, e, query, from := ConfigureOne(cmd);
      OneTurnAdded(before, e, looked, query, log);
      ConcatAssoc(start, sent, [e]);
    }

    // The command, and a look at the interrupt line. `looked`: the line was low, so
    // the status was queried. An error bit left from an earlier query decides if this
    // one is not answered.
    method ConfigureOne(cmd: seq<byte>)
      returns (r: Result, looked: bool, ghost e: Exchange, ghost query: Exchange, ghost from: nat)
      requires Valid() && 1 <= |cmd| <= MAX_COMMAND
      modifies this, pro2Cmd
      ensures Valid() && OneTurn(old(log), e, looked, query, log)
      ensures Configs(log) == old(Configs(log)) + [e] && Carries(e, cmd)
      ensures Polled(chip, old(polls), e, 0)
      ensures r == CtsTimeout <==> !e.cts
      ensures looked <==> e.cts && chip.low(old(looks))
      ensures r == CommandError <==> looked && CommandErrorPending()
      ensures e.cts ==> from == old(polls) + e.misses + 1
      ensures if looked then StatusRead(chip, query, from, old(intStatus), intStatus)
              else intStatus == old(intStatus)
      ensures !ReportsError(e)
      ensures looked && query.cts ==> (r == CommandError <==> ReportsError(query))
    {
      ghost var before := log;
      var cts;
      cts, e := Configure(cmd);
      ConfigsSnoc(before, e);
      looked, query, from := false, e, polls;
      if cts != CTS {
        return CtsTimeout, looked, e, query, from;
      }
      looked, query := LookAtLine();
      r := if looked && CommandErrorPending() then CommandError else Success;
    }

    // The status is queried if the line is low.
    method LookAtLine() returns (looked: bool, ghost query: Exchange)
      requires Valid()
      modifies this, pro2Cmd
      ensures Valid() && Configs(log) == old(Configs(log))
      ensures log == if looked then old(log) + [query] else old(log)
      ensures looked <==> chip.low(old(looks))
      ensures if looked then StatusRead(chip, query, old(polls), old(intStatus), intStatus)
              else intStatus == old(intStatus)
    {
      looked, query := chip.low(looks), Exchange([], false, 0, false, []);
      looks := looks + 1;
      if looked {
        ghost var before := log;
        var ok := GetIntStatus();
        query := log[|before|];
        ConfigsSnoc(before, query);
        assert Configs(before) + [] == Configs(before);
      }
    }
  }

  // q is a status query, polled for from the given poll on; the status is what it was
  // answered, or what it was before.
  ghost predicate StatusRead(chip: Chip, q: Exchange, from: nat, was: seq<byte>, now: seq<byte>) {
    && q.bytes == [0x20, 0, 0, 0] && !q.config && Polled(chip, from, q, 8)
    && now == if q.cts then q.reply else was
  }

  // What a turn adds to the log: the command, and the query if there was one.
  ghost predicate OneTurn(before: seq<Exchange>, e: Exchange, looked: bool, query: Exchange, log: seq<Exchange>) {
    if looked then log == before + [e] + [query] else log == before + [e]
  }

  lemma OneTurnAdded(before: seq<Exchange>, e: Exchange, looked: bool, query: Exchange, log: seq<Exchange>)
    requires OneTurn(before, e, looked, query, log) && !ReportsError(e)
    ensures looked ==> log[|log| - 1] == query
    ensures before < log && ErrorFree(log[..|log| - 1], |before|)
    ensures (looked ==> !ReportsError(query)) ==> ErrorFree(log, |before|)
  {
  }

  lemma StillErrorFree(before: seq<Exchange>, log: seq<Exchange>, from: nat)
    requires from <= |before| && before < log && ErrorFree(before, from)
    ensures ErrorFree(log[..|log| - 1], |before|) ==> ErrorFree(log[..|log| - 1], from)
    ensures ErrorFree(log, |before|) ==> ErrorFree(log, from)
  {
  }

  lemma NextCommand(all: seq<seq<byte>>, k: nat, rest: seq<byte>)
    requires k <= |all| && WellFormed(rest) && IsLength(rest[0]) && Commands(rest) == all[k..]
    ensures var n := rest[0] as int;
      n + 1 < |rest| && k < |all| && all[k] == rest[1..n + 1] && Commands(rest[n + 1..]) == all[k + 1..]
  {
    var n := rest[0] as int;
    assert Commands(rest)[0] == all[k] && Commands(rest)[1..] == all[k + 1..];
  }
}
