/**
 * The time-announcement sender: quiet-window evaluation, construction of the
 * three-field announcement record, and the per-tick decision loop of Run,
 * driven by a finite sequence of events (an Exit request, or a timer tick
 * carrying the outcome of that tick's NTP query).
 */
module RtcSync {
  import opened GoInts

  /** Active-message type the announcement packets carry. */
  const AMID_RTC: uint8 := 0x80
  /** Header value of a Unix-time announcement. */
  const TIME_ANNOUNCEMENT_UNIX: uint8 := 1
  const SECONDS_PER_DAY: int := 86400
  /** Seconds Run waits before its first tick. */
  const FIRST_ANNOUNCE_PERIOD: int := 1

  type AMAddr = uint16
  type AMGroup = uint8

  /** The announcement record: header, stratum and corrected Unix time. */
  datatype RTCSyncMsg = RTCSyncMsg(header: uint8, stratum: uint8, nxtime: int64)

  /** A daily window, inclusive at both ends, in seconds since UTC midnight. */
  datatype ClockTimePeriod = ClockTimePeriod(start: int64, end: int64)

  /** A packet handed to the transport: addressing plus the record it carries. */
  datatype Packet = Packet(group: AMGroup, source: AMAddr, destination: AMAddr, amType: uint8, payload: RTCSyncMsg)

  /** The parts of a validated NTP response the sender uses. */
  datatype NtpResponse = NtpResponse(time: int64, stratum: uint8)

  /** What one tick's NTP query gave. */
  datatype NtpOutcome = QueryFailed | ValidationFailed | Answered(response: NtpResponse)

  /** What Run's wait ends with: an Exit request or the timer firing. */
  datatype Event = Exit | Tick(ntp: NtpOutcome)

  /** Which branch of Run an event took. */
  datatype Reaction = Disconnected | Announced(packet: Packet) | QueryWarning | ValidationWarning | QuietSkip

  /** Addressing of outgoing packets: the sender's group and source, Run's destination. */
  datatype Route = Route(group: AMGroup, source: AMAddr, destination: AMAddr)

  // ---------------------------------------------------------------------------
  // Quiet windows

  /** Seconds since UTC midnight of Unix time t (UTC has no leap seconds here). */
  function SecondsOfDay(t: int): (tss: int)
    ensures 0 <= tss < SECONDS_PER_DAY
    ensures (t - tss) % SECONDS_PER_DAY == 0
  {
    var tss := t % SECONDS_PER_DAY;
    assert t == (t / SECONDS_PER_DAY) * SECONDS_PER_DAY + tss;
    tss
  }

  /**
   * The wall-clock fields of a UTC time, recombined as Hour*3600 + Minute*60
   * + Second, are exactly SecondsOfDay of that time.
   */
  lemma ClockFieldsGiveSecondsOfDay(t: int, hour: int, minute: int, second: int)
    requires 0 <= hour < 24 && 0 <= minute < 60 && 0 <= second < 60
    requires (t - (hour * 3600 + minute * 60 + second)) % SECONDS_PER_DAY == 0
    ensures SecondsOfDay(t) == hour * 3600 + minute * 60 + second
  {
    var clock := hour * 3600 + minute * 60 + second;
    var tss := SecondsOfDay(t);
    var k1 := (t - clock) / SECONDS_PER_DAY;
    var k2 := (t - tss) / SECONDS_PER_DAY;
    assert t - clock == k1 * SECONDS_PER_DAY;
    assert t - tss == k2 * SECONDS_PER_DAY;
    assert tss - clock == (k1 - k2) * SECONDS_PER_DAY;
    assert -SECONDS_PER_DAY < tss - clock < SECONDS_PER_DAY;
  }

  predicate Covers(w: ClockTimePeriod, tss: int) {
    w.start <= tss <= w.end
  }

  /** Time t is quiet when its seconds-of-day lies in some window. */
  predicate Quiet(windows: seq<ClockTimePeriod>, t: int) {
    exists i :: 0 <= i < |windows| && Covers(windows[i], SecondsOfDay(t))
  }

  /** Adding a window adds exactly the times that window covers. */
  lemma QuietAppend(windows: seq<ClockTimePeriod>, w: ClockTimePeriod, t: int)
    ensures Quiet(windows + [w], t) <==> Quiet(windows, t) || Covers(w, SecondsOfDay(t))
  {
    var all := windows + [w];
    if Quiet(all, t) {
      var i :| 0 <= i < |all| && Covers(all[i], SecondsOfDay(t));
      if i < |windows| {
        assert all[i] == windows[i];
      }
    }
    if Quiet(windows, t) {
      var i :| 0 <= i < |windows| && Covers(windows[i], SecondsOfDay(t));
      assert all[i] == windows[i];
    }
    if Covers(w, SecondsOfDay(t)) {
      assert all[|windows|] == w;
    }
  }

  /**
   * A window that is inverted (start after end) or lies wholly outside
   * [0, 86399] never matches: adding it changes no answer.
   */
  lemma UnmatchableWindow(windows: seq<ClockTimePeriod>, w: ClockTimePeriod, t: int)
    requires w.start > w.end || w.end < 0 || w.start >= SECONDS_PER_DAY
    ensures Quiet(windows + [w], t) == Quiet(windows, t)
  {
    QuietAppend(windows, w, t);
  }

  /**
   * The answer depends only on which windows are registered: not on their
   * order, nor on how often one is registered.
   */
  lemma QuietOrderIndependent(a: seq<ClockTimePeriod>, b: seq<ClockTimePeriod>, t: int)
    requires forall w :: w in a <==> w in b
    ensures Quiet(a, t) == Quiet(b, t)
  {
    forall x, y | (forall w :: w in x <==> w in y) && Quiet(x, t)
      ensures Quiet(y, t)
    {
      var i :| 0 <= i < |x| && Covers(x[i], SecondsOfDay(t));
      assert x[i] in y;
      var j :| 0 <= j < |y| && y[j] == x[i];
    }
  }

  /** Quiet windows repeat every day. */
  lemma QuietDaily(windows: seq<ClockTimePeriod>, t: int, days: int)
    ensures Quiet(windows, t + days * SECONDS_PER_DAY) == Quiet(windows, t)
  {
    var tss := SecondsOfDay(t);
    var k := (t - tss) / SECONDS_PER_DAY;
    assert t - tss == k * SECONDS_PER_DAY;
    assert (t + days * SECONDS_PER_DAY) - tss == (k + days) * SECONDS_PER_DAY;
    ClockFieldsGiveSecondsOfDay(t + days * SECONDS_PER_DAY, tss / 3600, (tss % 3600) / 60, tss % 60);
  }

  /**
   * The window 10:00-10:05 (36000..36300): 10:02:30 UTC is quiet, on any day,
   * and 09:59:59 and 10:05:01 are not; with no windows no time is quiet.
   */
  lemma QuietWindowExample(day: int)
    ensures Quiet([ClockTimePeriod(36000, 36300)], day * SECONDS_PER_DAY + 36150)
    ensures !Quiet([ClockTimePeriod(36000, 36300)], day * SECONDS_PER_DAY + 35999)
    ensures !Quiet([ClockTimePeriod(36000, 36300)], day * SECONDS_PER_DAY + 36301)
    ensures forall t :: !Quiet([], t)
  {
    var ws := [ClockTimePeriod(36000, 36300)];
    QuietDaily(ws, 36150, day);
    QuietDaily(ws, 35999, day);
    QuietDaily(ws, 36301, day);
    assert Covers(ws[0], SecondsOfDay(36150));
  }

  // ---------------------------------------------------------------------------
  // The announcement record

  /** The record announced for an NTP response and the operator's offset. */
  function Announcement(response: NtpResponse, offset: int64): (m: RTCSyncMsg)
    ensures m.header == TIME_ANNOUNCEMENT_UNIX
    ensures m.stratum == (response.stratum + 1) % 0x100
    ensures (m.nxtime - (response.time + offset)) % TWO_64 == 0
    ensures InInt64(response.time + offset) ==> m.nxtime == response.time + offset
  {
    RTCSyncMsg(TIME_ANNOUNCEMENT_UNIX, Add8(response.stratum, 1), Add64(response.time, offset))
  }

  /**
   * Raising the offset by delta raises the announced time by delta (with the
   * same int64 wrap-around as the source); 3600 is the one-hour shift.
   */
  lemma OffsetShift(response: NtpResponse, offset: int64, delta: int64)
    requires InInt64(offset + delta)
    ensures Announcement(response, offset + delta).nxtime == Add64(Announcement(response, offset).nxtime, delta)
    ensures InInt64(response.time + offset) && InInt64(response.time + offset + delta) ==>
              Announcement(response, offset + delta).nxtime == Announcement(response, offset).nxtime + delta
  {
    Wrap64Shift(response.time + offset, delta);
    assert response.time + (offset + delta) == response.time + offset + delta;
  }

  // ---------------------------------------------------------------------------
  // The per-tick decision of Run

  function AnnouncementPacket(route: Route, response: NtpResponse, offset: int64): Packet {
    Packet(route.group, route.source, route.destination, AMID_RTC, Announcement(response, offset))
  }

  /** Run's reaction to one event; the quiet check uses the NTP time. */
  function EventReaction(quiet: seq<ClockTimePeriod>, route: Route, offset: int64, event: Event): Reaction {
    match event
    case Exit => Disconnected
    case Tick(QueryFailed) => QueryWarning
    case Tick(ValidationFailed) => ValidationWarning
    case Tick(Answered(response)) =>
      if Quiet(quiet, response.time) then QuietSkip
      else Announced(AnnouncementPacket(route, response, offset))
  }

  /** Run's reactions to a sequence of events, one per event. */
  function Reactions(quiet: seq<ClockTimePeriod>, route: Route, offset: int64, events: seq<Event>): (trace: seq<Reaction>)
    ensures |trace| == |events|
  {
    seq(|events|, i requires 0 <= i < |events| => EventReaction(quiet, route, offset, events[i]))
  }

  /** The packets a trace hands to the transport, in order. */
  function Packets(trace: seq<Reaction>): seq<Packet> {
    if trace == [] then []
    else
      Packets(trace[..|trace| - 1]) +
      (match trace[|trace| - 1] case Announced(p) => [p] case _ => [])
  }

  function ExitCount(events: seq<Event>): nat {
    if events == [] then 0
    else ExitCount(events[..|events| - 1]) + (if events[|events| - 1].Exit? then 1 else 0)
  }

  function TickCount(events: seq<Event>): nat {
    if events == [] then 0
    else TickCount(events[..|events| - 1]) + (if events[|events| - 1].Tick? then 1 else 0)
  }

  /** The wait armed before each event, starting from the wait `current`. */
  function WaitsFrom(current: int, period: int, events: seq<Event>): (waits: seq<int>)
    ensures |waits| == |events|
    decreases |events|
  {
    if events == [] then []
    else [current] + WaitsFrom(if events[0].Tick? then period else current, period, events[1..])
  }

  /** The waits of a whole run: one second first, then `period` after a tick. */
  function Waits(period: int, events: seq<Event>): (waits: seq<int>)
    ensures |waits| == |events|
  {
    WaitsFrom(FIRST_ANNOUNCE_PERIOD, period, events)
  }

  /**
   * Event i sends a packet iff it is a tick whose query and validation
   * succeeded and whose NTP time is not quiet; that packet goes to the
   * destination with type AMID_RTC and carries the announcement. Every other
   * tick sends nothing, and an Exit disconnects.
   */
  lemma TickDecision(quiet: seq<ClockTimePeriod>, route: Route, offset: int64, events: seq<Event>, i: nat)
    requires i < |events|
    ensures var r := Reactions(quiet, route, offset, events)[i];
      && (r.Announced? <==> events[i].Tick? && events[i].ntp.Answered? && !Quiet(quiet, events[i].ntp.response.time))
      && (r.QuietSkip? <==> events[i].Tick? && events[i].ntp.Answered? && Quiet(quiet, events[i].ntp.response.time))
      && (r.QueryWarning? <==> events[i] == Tick(QueryFailed))
      && (r.ValidationWarning? <==> events[i] == Tick(ValidationFailed))
      && (r.Disconnected? <==> events[i] == Exit)
      && (r.Announced? ==> r.packet == Packet(route.group, route.source, route.destination, AMID_RTC,
                                               Announcement(events[i].ntp.response, offset)))
  {
  }

  lemma {:induction false} PacketsAppend(a: seq<Reaction>, b: seq<Reaction>)
    ensures Packets(a + b) == Packets(a) + Packets(b)
  {
    if b != [] {
      var b' := b[..|b| - 1];
      PacketsAppend(a, b');
      assert (a + b)[..|a + b| - 1] == a + b';
      assert (a + b)[|a + b| - 1] == b[|b| - 1];
    } else {
      assert a + b == a;
    }
  }

  lemma ReactionsPrefix(quiet: seq<ClockTimePeriod>, route: Route, offset: int64, events: seq<Event>, n: nat)
    requires n <= |events|
    ensures Reactions(quiet, route, offset, events)[..n] == Reactions(quiet, route, offset, events[..n])
  {
  }

  lemma ReactionsAppend(quiet: seq<ClockTimePeriod>, route: Route, offset: int64, e1: seq<Event>, e2: seq<Event>)
    ensures Reactions(quiet, route, offset, e1 + e2) == Reactions(quiet, route, offset, e1) + Reactions(quiet, route, offset, e2)
  {
  }

  /** At most one packet is sent per tick, and none for an Exit. */
  lemma {:induction false} AtMostOnePacketPerTick(quiet: seq<ClockTimePeriod>, route: Route, offset: int64, events: seq<Event>)
    ensures |Packets(Reactions(quiet, route, offset, events))| <= TickCount(events)
  {
    if events != [] {
      var n := |events| - 1;
      var trace := Reactions(quiet, route, offset, events);
      ReactionsPrefix(quiet, route, offset, events, n);
      AtMostOnePacketPerTick(quiet, route, offset, events[..n]);
      assert trace[..|trace| - 1] == Reactions(quiet, route, offset, events[..n]);
    }
  }

  /**
   * An Exit does not end the run: the events after it get the same reactions
   * and send the same packets as if they had come alone, and the Exit itself
   * sends nothing.
   */
  lemma ExitDoesNotStop(quiet: seq<ClockTimePeriod>, route: Route, offset: int64, before: seq<Event>, after: seq<Event>)
    ensures Reactions(quiet, route, offset, before + [Exit] + after) ==
            Reactions(quiet, route, offset, before) + [Disconnected] + Reactions(quiet, route, offset, after)
    ensures Packets(Reactions(quiet, route, offset, before + [Exit] + after)) ==
            Packets(Reactions(quiet, route, offset, before)) + Packets(Reactions(quiet, route, offset, after))
  {
    ReactionsAppend(quiet, route, offset, before + [Exit], after);
    ReactionsAppend(quiet, route, offset, before, [Exit]);
    PacketsAroundDisconnect(Reactions(quiet, route, offset, before), Reactions(quiet, route, offset, after));
  }

  lemma PacketsAroundDisconnect(b: seq<Reaction>, a: seq<Reaction>)
    ensures Packets(b + [Disconnected] + a) == Packets(b) + Packets(a)
  {
    PacketsAppend(b + [Disconnected], a);
    PacketsAppend(b, [Disconnected]);
    assert Packets([Disconnected]) == [] by {
      assert [Disconnected][..0] == [];
    }
  }

  /**
   * The wait armed before event i is one second until the first tick has
   * happened, and `period` from then on, whatever Exits come in between.
   */
  lemma {:induction false} WaitsAt(period: int, events: seq<Event>, i: nat)
    requires i < |events|
    ensures Waits(period, events)[i] == if TickCount(events[..i]) == 0 then FIRST_ANNOUNCE_PERIOD else period
  {
    WaitsFromAt(FIRST_ANNOUNCE_PERIOD, period, events, i);
  }

  lemma {:induction false} WaitsFromAt(current: int, period: int, events: seq<Event>, i: nat)
    requires i < |events|
    ensures WaitsFrom(current, period, events)[i] == if TickCount(events[..i]) == 0 then current else period
    decreases i
  {
    if i > 0 {
      var next := if events[0].Tick? then period else current;
      WaitsFromAt(next, period, events[1..], i - 1);
      TickCountFront(events[..i]);
      assert events[..i][1..] == events[1..][..i - 1];
    } else {
      assert events[..0] == [];
    }
  }

  lemma {:induction false} TickCountFront(events: seq<Event>)
    requires events != []
    ensures TickCount(events) == (if events[0].Tick? then 1 else 0) + TickCount(events[1..])
    decreases |events|
  {
    var n := |events| - 1;
    if n > 0 {
      TickCountFront(events[..n]);
      assert events[..n][1..] == events[1..][..n - 1];
      assert events[..n][0] == events[0];
    } else {
      assert events[..0] == [];
      assert events[1..] == [];
    }
  }

  /**
   * Four ticks whose queries fail, succeed, succeed and fail validation, with
   * no quiet windows: exactly two announcements, two warnings.
   */
  lemma FourTicksExample(route: Route, offset: int64, r1: NtpResponse, r2: NtpResponse)
    ensures var events := [Tick(QueryFailed), Tick(Answered(r1)), Tick(Answered(r2)), Tick(ValidationFailed)];
      var trace := Reactions([], route, offset, events);
      && trace == [QueryWarning, Announced(AnnouncementPacket(route, r1, offset)),
                   Announced(AnnouncementPacket(route, r2, offset)), ValidationWarning]
      && Packets(trace) == [AnnouncementPacket(route, r1, offset), AnnouncementPacket(route, r2, offset)]
  {
    var events := [Tick(QueryFailed), Tick(Answered(r1)), Tick(Answered(r2)), Tick(ValidationFailed)];
    var trace := Reactions([], route, offset, events);
    var p1, p2 := AnnouncementPacket(route, r1, offset), AnnouncementPacket(route, r2, offset);
    assert !Quiet([], r1.time) && !Quiet([], r2.time);
    assert trace[..3][..2][..1][..0] == [];
    assert trace[..3][..2][..1] == [QueryWarning];
    assert Packets(trace[..3][..2][..1]) == [];
    assert trace[..3][..2] == [QueryWarning, Announced(p1)];
    assert Packets(trace[..3][..2]) == [p1];
    assert trace[..3] == [QueryWarning, Announced(p1), Announced(p2)];
    assert Packets(trace[..3]) == [p1, p2];
  }

  // One more event of a run: how it extends the reactions, the Exit count,
  // the waits armed and the packets sent.

  lemma TraceStep(quiet: seq<ClockTimePeriod>, route: Route, offset: int64, events: seq<Event>, i: nat,
                  trace: seq<Reaction>, reaction: Reaction)
    requires i < |events|
    requires trace == Reactions(quiet, route, offset, events[..i])
    requires reaction == EventReaction(quiet, route, offset, events[i])
    ensures trace + [reaction] == Reactions(quiet, route, offset, events[..i + 1])
  {
    assert events[..i + 1][..i] == events[..i];
  }

  lemma ExitCountStep(events: seq<Event>, i: nat)
    requires i < |events|
    ensures ExitCount(events[..i + 1]) == ExitCount(events[..i]) + (if events[i].Exit? then 1 else 0)
  {
    assert events[..i + 1][..i] == events[..i];
  }

  lemma WaitsStep(period: int, current: int, events: seq<Event>, i: nat, waits: seq<int>)
    requires i < |events|
    requires waits + WaitsFrom(current, period, events[i..]) == Waits(period, events)
    ensures (waits + [current]) + WaitsFrom(if events[i].Tick? then period else current, period, events[i + 1..]) ==
            Waits(period, events)
  {
    assert events[i..][1..] == events[i + 1..];
    var next := if events[i].Tick? then period else current;
    assert waits + ([current] + WaitsFrom(next, period, events[i + 1..])) ==
           (waits + [current]) + WaitsFrom(next, period, events[i + 1..]);
  }

  lemma SentStep(trace: seq<Reaction>, reaction: Reaction, prior: seq<Packet>, before: seq<Packet>, after: seq<Packet>)
    requires before == prior + Packets(trace)
    requires after == before + (if reaction.Announced? then [reaction.packet] else [])
    ensures after == prior + Packets(trace + [reaction])
  {
    assert (trace + [reaction])[..|trace|] == trace;
    var extra := if reaction.Announced? then [reaction.packet] else [];
    assert (prior + Packets(trace)) + extra == prior + (Packets(trace) + extra);
  }

  // ---------------------------------------------------------------------------
  // The sender

  class SyncSender {
    /** Source address and group of the dispatcher's packets. */
    const source: AMAddr
    const group: AMGroup
    /** NTP server queried on every tick. */
    const host: string

    /** Registered quiet windows, in registration order. */
    var quiet: seq<ClockTimePeriod>
    /** Packets handed to the transport's Send, in order. */
    var sent: seq<Packet>
    /** Number of Disconnect calls made on the transport. */
    var disconnects: nat

    constructor (source: AMAddr, group: AMGroup, host: string)
      ensures this.source == source && this.group == group && this.host == host
      ensures quiet == [] && sent == [] && disconnects == 0
    {
      this.source := source;
      this.group := group;
      this.host := host;
      quiet := [];
      sent := [];
      disconnects := 0;
    }

    method AddQuietPeriod(qp: ClockTimePeriod)
      modifies this`quiet
      ensures quiet == old(quiet) + [qp]
    {
      quiet := quiet + [qp];
    }

    /** Whether time t falls in a registered window; scans them in order. */
    method QuietPeriod(t: int64) returns (isQuiet: bool)
      ensures isQuiet == Quiet(quiet, t)
    {
      var tss := SecondsOfDay(t);
      for i := 0 to |quiet|
        invariant forall j :: 0 <= j < i ==> !Covers(quiet[j], tss)
      {
        if quiet[i].start <= tss && tss <= quiet[i].end {
          return true;
        }
      }
      return false;
    }

    /** Builds the announcement and hands exactly one packet to the transport. */
    method AnnounceTime(destination: AMAddr, response: NtpResponse, offset: int64)
      modifies this`sent
      ensures sent == old(sent) + [AnnouncementPacket(Route(group, source, destination), response, offset)]
    {
      var m := RTCSyncMsg(TIME_ANNOUNCEMENT_UNIX, Add8(response.stratum, 1), Add64(response.time, offset));
      var msg := Packet(group, source, destination, AMID_RTC, m);
      sent := sent + [msg];
    }

    /**
     * One pass of the announcement loop's select: disconnect on an exit
     * request; on a tick query NTP, then warn, stay silent or announce.
     */
    method React(destination: AMAddr, offset: int64, event: Event) returns (reaction: Reaction)
      modifies this`sent, this`disconnects
      ensures reaction == EventReaction(quiet, Route(group, source, destination), offset, event)
      ensures sent == old(sent) + (if reaction.Announced? then [reaction.packet] else [])
      ensures disconnects == old(disconnects) + (if event.Exit? then 1 else 0)
    {
      match event {
        case Exit =>
          disconnects := disconnects + 1;
          reaction := Disconnected;
        case Tick(QueryFailed) =>
          reaction := QueryWarning;
        case Tick(ValidationFailed) =>
          reaction := ValidationWarning;
        case Tick(Answered(response)) =>
          var isQuiet := QuietPeriod(response.time);
          if isQuiet {
            reaction := QuietSkip;
          } else {
            AnnounceTime(destination, response, offset);
            reaction := Announced(sent[|sent| - 1]);
          }
      }
    }

    /**
     * The announcement loop over the events it observes. Returns the reaction
     * to each event and the wait that was armed before it.
     */
    method Run(destination: AMAddr, period: int, offset: int64, events: seq<Event>)
      returns (trace: seq<Reaction>, waits: seq<int>)
      modifies this`sent, this`disconnects
      ensures trace == Reactions(quiet, Route(group, source, destination), offset, events)
      ensures waits == Waits(period, events)
      ensures sent == old(sent) + Packets(trace)
      ensures disconnects == old(disconnects) + ExitCount(events)
    {
      ghost var route := Route(group, source, destination);
      var announcePeriod := FIRST_ANNOUNCE_PERIOD;
      trace, waits := [], [];
      for i := 0 to |events|
        invariant trace == Reactions(quiet, route, offset, events[..i])
        invariant waits + WaitsFrom(announcePeriod, period, events[i..]) == Waits(period, events)
        invariant sent == old(sent) + Packets(trace)
        invariant disconnects == old(disconnects) + ExitCount(events[..i])
      {
        WaitsStep(period, announcePeriod, events, i, waits);
        waits := waits + [announcePeriod];
        if events[i].Tick? {
          announcePeriod := period;
        }
        ghost var sentBefore := sent;
        var reaction := React(destination, offset, events[i]);
        TraceStep(quiet, route, offset, events, i, trace, reaction);
        ExitCountStep(events, i);
        SentStep(trace, reaction, old(sent), sentBefore, sent);
        trace := trace + [reaction];
      }
      assert events[..|events|] == events;
    }
  }
}
