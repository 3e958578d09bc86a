/** The Jetson's side of the link: host/c2_link.py and the sending half of host/jetson_test.py, in milliseconds. */
module Jetson {
  import opened Words
  import opened Config
  import opened Protocol
  import opened Pacing
  import PyProtocol
  import PyMessages

  /** No heartbeat yet, or none for at least the timeout. */
  predicate LostAt(beats: seq<int>, now: int, timeout: int) {
    beats == [] || now - beats[|beats| - 1] >= timeout
  }

  class C2Monitor {
    const timeout: int
    var lastC2Time: int
    var haveConnection: bool

    /** The times of all heartbeats. */
    ghost var beats: seq<int>

    ghost predicate Valid()
      reads this
    {
      haveConnection == (beats != []) && (beats != [] ==> lastC2Time == beats[|beats| - 1])
    }

    constructor (timeout: int)
      ensures Valid() && beats == [] && this.timeout == timeout
    {
      this.timeout := timeout;
      lastC2Time, haveConnection, beats := 0, false, [];
    }

    method OnLinkUpdate(messageTime: int)
      modifies this
      ensures Valid() && beats == old(beats) + [messageTime]
    {
      lastC2Time := messageTime;
      haveConnection := true;
      beats := beats + [messageTime];
    }

    predicate NoConnection(now: int)
      requires Valid()
      reads this
      ensures NoConnection(now) == LostAt(beats, now, timeout)
      ensures NoConnection(now) <==> |beats| == 0 || now - beats[|beats| - 1] >= timeout
    {
      if !haveConnection then true else now - lastC2Time >= timeout
    }
  }

  /** Every message waiting on the base-station link counts as heard now. */
  method PollC2Lost(received: seq<string>, monitor: C2Monitor, now: int) returns (lost: bool)
    requires monitor.Valid()
    modifies monitor
    ensures monitor.Valid()
    ensures monitor.beats == old(monitor.beats) + seq(|received|, _ => now)
    ensures lost == LostAt(monitor.beats, now, monitor.timeout)
    ensures |received| > 0 ==> (lost <==> monitor.timeout <= 0)
    ensures |received| == 0 ==>
              (lost <==> |monitor.beats| == 0 || now - monitor.beats[|monitor.beats| - 1] >= monitor.timeout)
  {
    for i := 0 to |received|
      invariant monitor.Valid() && monitor.beats == old(monitor.beats) + seq(i, _ => now)
    {
      monitor.OnLinkUpdate(now);
    }
    lost := monitor.NoConnection(now);
  }

  /** One CONTROL frame sent: when, its running number, and how many heartbeats had been heard by then. */
  datatype Sending = Sending(time: int, number: nat, msg: ControlMsg, heard: nat)

  /** Numbers only grow, and each message carries its number modulo 256. */
  ghost predicate Numbered(log: seq<Sending>, last: nat) {
    && (forall i | 0 <= i < |log| :: log[i].msg.seqNo == log[i].number % 256 && log[i].number <= last)
    && forall i, j | 0 <= i < j < |log| :: log[i].number < log[j].number
  }

  /** Every message drives in MANUAL, unstopped, and tells the truth about the base station at its sending. */
  ghost predicate Truthful(log: seq<Sending>, beats: seq<int>, timeout: int) {
    forall i | 0 <= i < |log| ::
      && ValidControl(log[i].msg) && log[i].msg.mode == MODE_MANUAL && !log[i].msg.stop && log[i].heard <= |beats|
      && log[i].msg.c2Lost == LostAt(beats[..log[i].heard], log[i].time, timeout)
  }

  class JetsonLink {
    var txSeq: u8
    var framesSent: nat

    /** How often a sequence number has been drawn, and what was sent. */
    ghost var drawn: nat
    ghost var log: seq<Sending>

    ghost predicate Valid()
      reads this
    {
      txSeq == drawn % 256 && framesSent == |log| && Numbered(log, drawn)
    }

    constructor ()
      ensures Valid() && drawn == 0 && log == []
    {
      txSeq, framesSent, drawn, log := 0, 0, 0, [];
    }

    /** None when a value does not fit its field: the encoder raises, with the sequence number already spent. */
    method SendControl(drive: int, steer: int, mode: int, c2Lost: bool, stop: bool, autonomyAbort: bool,
                       returnRequest: bool, indicator: int, ghost now: int, ghost heard: nat)
      returns (frame: Option<seq<u8>>)
      requires Valid()
      modifies this
      ensures Valid() && drawn == old(drawn) + 1
      ensures frame.Some? <==> PyMessages.FitsI16(drive) && PyMessages.FitsI16(steer) && 0 <= mode < 0x100
      ensures frame.None? ==> log == old(log)
      ensures frame.Some? ==>
                var m := ControlMsg(drive, steer, mode, stop, autonomyAbort, returnRequest, indicator % 0x100, c2Lost,
                                    drawn % 256);
                log == old(log) + [Sending(now, drawn, m, heard)]
                && PyProtocol.Raw(frame.value) == ControlFrame(CAN_ID_CONTROL, m)
    {
      hide ControlFrame, PyProtocol.Raw;
      txSeq := (txSeq + 1) % 0x100;
      drawn := drawn + 1;
      frame := PyMessages.EncodeControl(drive, steer, mode, c2Lost, stop, txSeq, autonomyAbort, returnRequest,
                                        indicator);
      if frame.None? { return; }
      framesSent := framesSent + 1;
      log := log + [Sending(now, drawn, ControlMsg(drive, steer, mode, stop, autonomyAbort, returnRequest,
                                                   indicator % 0x100, c2Lost, drawn % 256), heard)];
    }
  }

  lemma TruthfulSnoc(log: seq<Sending>, beats: seq<int>, later: seq<int>, timeout: int, s: Sending)
    requires Truthful(log, beats, timeout) && beats <= later
    requires ValidControl(s.msg) && s.msg.mode == MODE_MANUAL && !s.msg.stop && s.heard == |later|
    requires s.msg.c2Lost == LostAt(later, s.time, timeout)
    ensures Truthful(log + [s], later, timeout)
  {
    hide LostAt, ValidControl;
    var longer := log + [s];
    forall i | 0 <= i < |longer|
      ensures ValidControl(longer[i].msg) && longer[i].msg.mode == MODE_MANUAL && !longer[i].msg.stop
      ensures longer[i].heard <= |later|
      ensures longer[i].msg.c2Lost == LostAt(later[..longer[i].heard], longer[i].time, timeout)
    {
      if i < |log| {
        assert later[..log[i].heard] == beats[..log[i].heard];
      } else {
        assert later[..|later|] == later;
      }
    }
  }

  /** The sendings are the turns that the schedule makes due, numbered from one. */
  ghost predicate Scheduled(log: seq<Sending>, firings: seq<nat>) {
    && |log| == |firings|
    && forall i | 0 <= i < |log| :: log[i].time == firings[i] && log[i].number == i + 1
  }

  /** Every message carries the pair of commands given to its turn, in MANUAL, and asks for nothing else. */
  ghost predicate Commanded(log: seq<Sending>, given: seq<(int, int)>) {
    && |log| == |given|
    && forall i | 0 <= i < |log| ::
         var m := log[i].msg;
         && (m.driveCmd, m.steerCmd) == given[i] && m.mode == 1 && m.indicatorRequest == 1
         && !m.stop && !m.autonomyAbort && !m.returnRequest
  }

  lemma CommandedSnoc(log: seq<Sending>, given: seq<(int, int)>, s: Sending)
    requires Commanded(log, given) && s.msg.mode == 1 && s.msg.indicatorRequest == 1
    requires !s.msg.stop && !s.msg.autonomyAbort && !s.msg.returnRequest
    ensures Commanded(log + [s], given + [(s.msg.driveCmd, s.msg.steerCmd)])
  {}

  /** The sending loop of run(): paced, always MANUAL, the base-station link polled at every sending. */
  class Driver {
    const link: JetsonLink
    const monitor: C2Monitor
    const watchesC2: bool
    const period: u32
    const start: nat
    var tNext: int

    /** When each turn of the loop read the clock, and the drive and steer of every turn that sent. */
    ghost var turns: seq<nat>
    ghost var given: seq<(int, int)>

    ghost predicate Valid()
      reads this, link, monitor
    {
      && link.Valid() && monitor.Valid()
      && Truthful(link.log, monitor.beats, monitor.timeout)
      && (!watchesC2 ==> monitor.beats == [])
      && tNext == IdealAll(start, period, turns).0
      && Scheduled(link.log, Firings(start, period, turns)) && link.drawn == |link.log|
      && Commanded(link.log, given)
    }

    constructor (period: u32, timeout: int, start: nat, watchesC2: bool)
      ensures Valid() && fresh(link) && fresh(monitor) && monitor.timeout == timeout
      ensures link.log == [] && monitor.beats == [] && turns == [] && given == []
      ensures this.watchesC2 == watchesC2 && this.period == period && this.start == start == tNext
    {
      this.period := period;
      this.watchesC2 := watchesC2;
      this.start := start;
      link := new JetsonLink();
      monitor := new C2Monitor(timeout);
      tNext := start;
      turns := [];
      given := [];
    }

    /** Without a base-station link to watch, it is reported lost. */
    method Poll(received: seq<string>, now: nat) returns (lost: bool)
      requires monitor.Valid() && (!watchesC2 ==> monitor.beats == [])
      modifies monitor
      ensures monitor.Valid() && (!watchesC2 ==> monitor.beats == [])
      ensures monitor.beats == old(monitor.beats) + Beats(received, now)
      ensures lost == LostAt(monitor.beats, now, monitor.timeout)
    {
      if !watchesC2 { return true; }
      lost := PollC2Lost(received, monitor, now);
    }

    function Beats(received: seq<string>, now: nat): seq<int> {
      seq(if watchesC2 then |received| else 0, _ => now)
    }

    /** One turn of the loop: sends on the same schedule as the firmware's telemetry. */
    method Turn(now: nat, received: seq<string>, drive: int, steer: int) returns (frame: Option<seq<u8>>)
      requires Valid() && CMD_MIN <= drive <= CMD_MAX && CMD_MIN <= steer <= CMD_MAX
      modifies this, link, monitor
      ensures Valid() && turns == old(turns) + [now]
      ensures (tNext, frame.Some?) == IdealPoll(old(tNext), now, period)
      ensures frame.None? ==> link.log == old(link.log) && monitor.beats == old(monitor.beats) && given == old(given)
      ensures frame.Some? ==> given == old(given) + [(drive, steer)]
      ensures frame.Some? ==>
                var f := PyProtocol.Raw(frame.value);
                && |f| == 8 && ControlVerdict(0x100, f) == DECODE_OK
                && ControlFields(f) == ControlMsg(drive, steer, 1, false, false, false, 1,
                                                  LostAt(monitor.beats, now, monitor.timeout), link.drawn % 256)
      ensures frame.Some? ==>
                var m := ManualCommand(drive, steer, LostAt(monitor.beats, now, monitor.timeout), link.drawn);
                && link.log == old(link.log) + [Sending(now, link.drawn, m, |monitor.beats|)]
                && PyProtocol.Raw(frame.value) == ControlFrame(CAN_ID_CONTROL, m)
                && monitor.beats == old(monitor.beats) + Beats(received, now)
    {
      hide ControlFrame, ControlVerdict, ControlFields, PyProtocol.Raw, Truthful, Numbered, LostAt, IdealAll, Firings,
        Scheduled, Commanded;
      FiringsSnoc(start, period, turns, now);
      turns := turns + [now];
      frame := None;
      if now >= tNext {
        frame := Send(now, received, drive, steer);
        ghost var sent := link.log[|link.log| - 1];
        ScheduledSnoc(old(link.log), Firings(start, period, old(turns)), sent);
        CommandedSnoc(old(link.log), given, sent);
        given := given + [(drive, steer)];
        DecodeOfEncode(CAN_ID_CONTROL, sent.msg);
        tNext := tNext + period;
        if now - tNext > period { tNext := now + period; }
      }
    }

    method Send(now: nat, received: seq<string>, drive: int, steer: int) returns (frame: Option<seq<u8>>)
      requires link.Valid() && monitor.Valid() && Truthful(link.log, monitor.beats, monitor.timeout)
      requires !watchesC2 ==> monitor.beats == []
      requires CMD_MIN <= drive <= CMD_MAX && CMD_MIN <= steer <= CMD_MAX
      modifies link, monitor
      ensures link.Valid() && monitor.Valid() && Truthful(link.log, monitor.beats, monitor.timeout)
      ensures !watchesC2 ==> monitor.beats == []
      ensures link.drawn == old(link.drawn) + 1 && frame.Some?
      ensures var m := ManualCommand(drive, steer, LostAt(monitor.beats, now, monitor.timeout), link.drawn);
              && link.log == old(link.log) + [Sending(now, link.drawn, m, |monitor.beats|)]
              && PyProtocol.Raw(frame.value) == ControlFrame(CAN_ID_CONTROL, m)
      ensures monitor.beats == old(monitor.beats) + Beats(received, now)
    {
      hide ControlFrame, PyProtocol.Raw, Truthful, Numbered, LostAt;
      var c2Lost := Poll(received, now);
      frame := link.SendControl(drive, steer, MODE_MANUAL, c2Lost, false, false, false, INDICATOR_TELEOP,
                                now, |monitor.beats|);
      TruthfulSnoc(old(link.log), old(monitor.beats), monitor.beats, monitor.timeout,
                   Sending(now, link.drawn, ManualCommand(drive, steer, c2Lost, link.drawn), |monitor.beats|));
    }
  }

  lemma ScheduledSnoc(log: seq<Sending>, firings: seq<nat>, s: Sending)
    requires Scheduled(log, firings) && s.time >= 0 && s.number == |log| + 1
    ensures Scheduled(log + [s], firings + [s.time])
  {}

  function ManualCommand(drive: int, steer: int, c2Lost: bool, number: nat): (m: ControlMsg)
    requires CMD_MIN <= drive <= CMD_MAX && CMD_MIN <= steer <= CMD_MAX
    ensures ValidControl(m)
  {
    ControlMsg(drive, steer, MODE_MANUAL, false, false, false, INDICATOR_TELEOP, c2Lost, number % 256)
  }
}
