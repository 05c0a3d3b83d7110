/** The system clock's alarms.  The tick counter and the alarm times are 32-bit and
    wrap; a flag per alarm says that its time lies beyond the next wrap.  `now` is
    the tick count that never wraps. */
module Alarms {
  import opened Machine

  // ------------------------------------------------------------------ arithmetic

  /** A 32-bit time and a flag stand for the absolute tick `due`.  In the last tick
      before a wrap the flag is about to be cleared, so it says nothing. */
  ghost predicate Encodes(time: u32, rollover: bool, due: nat, now: nat) {
    && now < due <= now + TWO_32
    && time == due % TWO_32
    && (now % TWO_32 == TWO_32 - 1 || (due < now + TWO_32 && (rollover <==> due / TWO_32 > now / TWO_32)))
  }

  /** The test that alt_tick makes, with the counter already advanced. */
  predicate Expired(time: u32, rollover: bool, nticks: u32) {
    time <= nticks && !(rollover && nticks != 0)
  }

  /** A tick fires an alarm exactly when it is due, and otherwise leaves it standing
      for the same absolute tick. */
  lemma TickDecides(time: u32, rollover: bool, due: nat, now: nat)
    requires Encodes(time, rollover, due, now)
    ensures Expired(time, rollover, (now + 1) % TWO_32) <==> due == now + 1
    ensures due != now + 1 ==> Encodes(time, rollover && (now + 1) % TWO_32 != 0, due, now + 1)
  {
  }

  /** Adding any non-zero 32-bit period to an alarm that has just fired. */
  lemma PeriodAdds(period: u32, now: nat)
    requires period != 0
    ensures var nticks, time := now % TWO_32, ToU32(now % TWO_32 + period);
            Encodes(time, time < nticks, now + period, now)
  {
  }

  /** The intervals that alt_alarm_start can express: all but the largest, which
      works only when the counter is about to wrap. */
  predicate Expressible(interval: u32, nticks: u32) {
    interval != TWO_32 - 1 || nticks == TWO_32 - 1
  }

  /** Starting an alarm sets it for `interval + 1` ticks ahead, if that can be
      expressed. */
  lemma StartSets(interval: u32, now: nat)
    requires Expressible(interval, now % TWO_32)
    ensures var nticks := now % TWO_32; var time := ToU32(interval + nticks + 1);
            Encodes(time, time < nticks, now + interval + 1, now)
  {
  }

  /** And only if: otherwise the very next tick fires it, 2^32 - 1 ticks early. */
  lemma StartTooLong(interval: u32, now: nat)
    ensures var nticks := now % TWO_32; var time := ToU32(interval + nticks + 1);
            Expressible(interval, nticks) <==> (Expired(time, time < nticks, (now + 1) % TWO_32) <==> interval == 0)
  {
  }

  // -------------------------------------------------------------------- schedule

  /** What an alarm's callback returns on its k-th call: the ticks until the next. */
  type Periods = nat -> u32

  /** The tick of the k-th firing: the first one plus everything returned since. */
  function DueAt(first: nat, periods: Periods, k: nat): nat {
    if k == 0 then first else DueAt(first, periods, k - 1) + periods(k - 1)
  }

  /** The first k callbacks all asked to be called again. */
  ghost predicate Running(periods: Periods, k: nat) {
    forall j: nat :: j < k ==> periods(j) != 0
  }

  /** The log is the schedule's first |log| ticks, each of them called for. */
  ghost predicate Follows(log: seq<nat>, first: nat, periods: Periods) {
    && (forall k :: 0 <= k < |log| ==> log[k] == DueAt(first, periods, k))
    && (|log| > 0 ==> Running(periods, |log| - 1))
  }

  /** The alarm has fired for the k-th time if and only if every callback before asked
      to be called again and the k-th tick of the schedule has come. */
  ghost predicate Complete(log: seq<nat>, first: nat, periods: Periods, now: nat) {
    && Follows(log, first, periods)
    && forall k: nat :: k < |log| <==> Running(periods, k) && DueAt(first, periods, k) <= now
  }

  lemma {:induction false} ScheduleGrows(first: nat, periods: Periods, j: nat, k: nat)
    requires j <= k
    ensures DueAt(first, periods, j) <= DueAt(first, periods, k)
    ensures j < k && periods(j) != 0 ==> DueAt(first, periods, j) < DueAt(first, periods, k)
    decreases k - j
  {
    if j < k {
      ScheduleGrows(first, periods, j + 1, k);
      assert DueAt(first, periods, j + 1) == DueAt(first, periods, j) + periods(j);
    }
  }

  /** If the next firing is still ahead, nothing has been missed. */
  lemma NothingMissed(log: seq<nat>, first: nat, periods: Periods, now: nat)
    requires Follows(log, first, periods) && forall k :: 0 <= k < |log| ==> log[k] <= now
    requires DueAt(first, periods, |log|) > now || !Running(periods, |log|)
    ensures Complete(log, first, periods, now)
  {
    forall k: nat
      ensures k < |log| <==> Running(periods, k) && DueAt(first, periods, k) <= now
    {
      if k >= |log| && Running(periods, k) {
        ScheduleGrows(first, periods, |log|, k);
      }
    }
  }

  /** A complete log holds exactly the called-for ticks of the schedule that have come,
      and holds each once. */
  lemma FiredExactly(log: seq<nat>, first: nat, periods: Periods, now: nat, t: nat)
    requires Complete(log, first, periods, now)
    ensures t in log <==> t <= now && exists k: nat :: Running(periods, k) && DueAt(first, periods, k) == t
    ensures forall j, k :: 0 <= j < k < |log| ==> log[j] < log[k]
  {
    if t in log {
      var k: nat :| k < |log| && log[k] == t;
      assert Running(periods, k) && DueAt(first, periods, k) == t;
    }
    forall j, k | 0 <= j < k < |log|
      ensures log[j] < log[k]
    {
      ScheduleGrows(first, periods, j, k);
    }
  }

  // ------------------------------------------------------------------- the clock

  /** An alarm's history, and the tick it was set for, before a tick. */
  datatype Snapshot = Snapshot(first: nat, callback: Periods, log: seq<nat>, calls: nat, due: nat)

  class Alarm {
    var time: u32
    var rollover: bool
    var callback: Periods

    // The absolute tick of the first firing, and the ticks on which it has fired.
    ghost var first: nat
    ghost var log: seq<nat>
    var calls: nat

    constructor ()
      ensures log == []
    {
      callback := k => 0;
      time, rollover, calls := 0, false, 0;
      first, log := 0, [];
    }

    /** The tick for which the alarm is set. */
    ghost function Due(): nat
      reads this
    {
      DueAt(first, callback, calls)
    }

    /** The alarm has fired on schedule so far. */
    ghost predicate OnSchedule(now: nat)
      reads this
    {
      && calls == |log| && Follows(log, first, callback)
      && forall k :: 0 <= k < |log| ==> log[k] <= now
    }

    /** The alarm is on the list and set for its next firing. */
    ghost predicate Armed(now: nat)
      reads this
    {
      && OnSchedule(now) && Running(callback, calls)
      && Encodes(time, rollover, Due(), now)
    }

    ghost function Snap(): Snapshot
      reads this
    {
      Snapshot(first, callback, log, calls, Due())
    }

    /** In the tick that led to `now` the alarm fired if it was due then, and only
        then; and all its firings so far are all that the schedule asks for. */
    ghost predicate Served(was: Snapshot, now: nat)
      reads this
    {
      && first == was.first && callback == was.callback && OnSchedule(now) && Complete(log, first, callback, now)
      && log == if was.due == now then was.log + [now] else was.log
    }

    /** The alarm was not due, or its callback asked to be called again. */
    static ghost predicate Stays(was: Snapshot, now: nat) {
      was.due == now ==> was.callback(was.calls) != 0
    }

    /** The alarm is off the list for good: its last callback returned 0. */
    ghost predicate Retired()
      reads this
    {
      calls > 0 && callback(calls - 1) == 0
    }

    /** All due firings have happened, and the alarm is listed or will not fire again. */
    ghost predicate UpToDate(listed: seq<Alarm>, now: nat)
      reads this
    {
      Complete(log, first, callback, now) && OnSchedule(now) && (this in listed || Retired())
    }

    lemma ArmedIsComplete(now: nat)
      requires Armed(now)
      ensures Complete(log, first, callback, now) && OnSchedule(now)
    {
      NothingMissed(log, first, callback, now);
    }

    lemma StaysComplete(now: nat)
      requires now > 0 && OnSchedule(now - 1) && Retired()
      ensures Complete(log, first, callback, now) && OnSchedule(now)
    {
    }

    /** Make the callback and set the alarm again by what it returns. */
    method Fire(nticks: u32, ghost now: nat) returns (stop: bool)
      requires now > 0 && nticks == now % TWO_32 && OnSchedule(now - 1) && Running(callback, calls) && Due() == now
      requires time == nticks && !rollover
      modifies `time, `rollover, `calls, `log
      ensures OnSchedule(now) && log == old(log) + [now] && calls == old(calls) + 1
      ensures stop <==> callback(old(calls)) == 0
      ensures !stop ==> Encodes(time, rollover, Due(), now)
    {
      hide Encodes, DueAt;
      PeriodAdds(if callback(calls) == 0 then 1 else callback(calls), now);
      DueNext(first, callback, calls);
      var period := callback(calls);
      calls, log := calls + 1, log + [now];
      if period == 0 {
        stop := true;
      } else {
        stop := false;
        time := ToU32(time + period);
        if time < nticks {
          rollover := true;
        }
      }
    }

    /** The part of alt_tick that deals with one alarm, the counter having just been
        advanced to `now`.  The alarm is to be removed if its callback returned 0. */
    method Service(nticks: u32, ghost now: nat) returns (stop: bool)
      requires now > 0 && nticks == now % TWO_32 && Armed(now - 1)
      modifies `time, `rollover, `calls, `log
      ensures Served(old(Snap()), now) && (stop <==> !Stays(old(Snap()), now))
      ensures !stop ==> Armed(now)
      ensures stop ==> Retired()
    {
      hide Complete, DueAt, Follows;
      TickDecides(time, rollover, Due(), now - 1);
      stop := false;
      if rollover && nticks == 0 {
        rollover := false;
      }
      if time <= nticks && !rollover {
        stop := Fire(nticks, now);
      }
      assert Running(callback, old(calls));
      NothingMissed(log, first, callback, now);
    }
  }

  lemma DueFirst(first: nat, periods: Periods)
    ensures DueAt(first, periods, 0) == first
  {
  }

  lemma DueNext(first: nat, periods: Periods, k: nat)
    ensures DueAt(first, periods, k + 1) == DueAt(first, periods, k) + periods(k)
  {
  }

  /** What can happen to the clock. */
  datatype Action = Passes | Begins(alarm: Alarm, interval: u32, callback: Periods) | Ends(alarm: Alarm)

  /** How many ticks pass in a run. */
  function Ticks(actions: seq<Action>): nat {
    if actions == [] then 0 else Ticks(actions[..|actions| - 1]) + if actions[|actions| - 1].Passes? then 1 else 0
  }

  datatype StartResult = Started | Invalid | Unsupported

  class Clock {
    var tickRate: u32
    var nticks: u32
    var alarms: seq<Alarm>
    ghost var now: nat

    ghost predicate Valid()
      reads this, alarms
    {
      && nticks == now % TWO_32
      && Distinct(alarms)
      && forall i :: 0 <= i < |alarms| ==> alarms[i].Armed(now)
    }

    constructor (tickRate: u32)
      ensures Valid() && alarms == [] && now == 0 && this.tickRate == tickRate
    {
      this.tickRate, nticks, alarms, now := tickRate, 0, [], 0;
    }

    /** alt_alarm_start for an alarm that is not on the list.  One that can be
        expressed is set for interval + 1 ticks ahead. */
    method Start(alarm: Alarm?, interval: u32, callback: Periods) returns (r: StartResult)
      requires Valid() && alarm !in alarms
      modifies `alarms, alarm
      ensures tickRate == 0 ==> r == Unsupported
      ensures tickRate != 0 ==> r == if alarm == null then Invalid else Started
      ensures r != Started ==> Valid() && alarms == old(alarms)
      ensures r == Started ==> alarms == [alarm] + old(alarms) && alarm.log == [] && alarm.callback == callback
      ensures r == Started ==> alarm.time == ToU32(interval + nticks + 1) && (alarm.rollover <==> alarm.time < nticks)
      ensures r == Started && Expressible(interval, nticks) ==> Valid() && alarm.first == now + interval + 1
    {
      hide DueAt, Encodes, ToU32;
      if tickRate == 0 {
        return Unsupported;
      }
      if alarm == null {
        return Invalid;
      }
      alarm.callback := callback;
      var current := nticks;
      alarm.calls, alarm.log, alarm.first := 0, [], now + interval + 1;
      alarm.time := ToU32(interval + current + 1);
      if alarm.time < current {
        alarm.rollover := true;
      } else {
        alarm.rollover := false;
      }
      if Expressible(interval, current) {
        StartSets(interval, now);
        DueFirst(alarm.first, alarm.callback);
      }
      alarms := [alarm] + alarms;
      return Started;
    }

    /** alt_alarm_stop. */
    method Stop(alarm: Alarm)
      requires Distinct(alarms)
      modifies `alarms
      ensures alarms == Without(old(alarms), alarm)
      ensures Distinct(alarms) && forall a :: a in alarms <==> a in old(alarms) && a != alarm
    {
      WithoutOne(alarms, alarm);
      alarms := Without(alarms, alarm);
    }

    /** One turn of the walk over the list. */
    method ServeNext(alarm: Alarm, ghost front: seq<Alarm>, ghost back: seq<Alarm>) returns (ghost front': seq<Alarm>)
      requires now > 0 && nticks == now % TWO_32 && alarm.Armed(now - 1)
      requires Distinct(alarms) && alarms == front + [alarm] + back
      modifies `alarms, alarm
      ensures alarm.Served(old(alarm.Snap()), now)
      ensures if Alarm.Stays(old(alarm.Snap()), now) then alarm.Armed(now) else alarm.Retired()
      ensures front' == if Alarm.Stays(old(alarm.Snap()), now) then front + [alarm] else front
      ensures Distinct(alarms) && alarms == front' + back
    {
      hide Alarm.Served, Alarm.Armed, Alarm.Retired, Alarm.Stays;
      var stop := alarm.Service(nticks, now);
      front' := front + [alarm];
      if stop {
        WithoutMiddle(front, alarm, back);
        Stop(alarm);
        front' := front;
      }
    }

    /** The first i alarms of the list have been served and the rest have not. */
    ghost predicate Midway(list: seq<Alarm>, was: seq<Snapshot>, i: nat)
      reads this, list
    {
      && i <= |list| == |was| && Distinct(list) && now > 0 && nticks == now % TWO_32
      && alarms == Keep(list, was, now, i) + list[i..]
      && (forall j :: 0 <= j < i ==>
            list[j].Served(was[j], now) && if Alarm.Stays(was[j], now) then list[j].Armed(now) else list[j].Retired())
      && forall j :: i <= j < |list| ==> list[j].Snap() == was[j] && list[j].Armed(now - 1)
    }

    method ServeOne(list: seq<Alarm>, ghost was: seq<Snapshot>, i: nat)
      requires i < |list| && Midway(list, was, i)
      modifies `alarms, list
      ensures Midway(list, was, i + 1)
    {
      hide Alarm.Served, Alarm.Stays, Alarm.Armed, Alarm.Snap, Alarm.Retired;
      KeepPart(list, was, now, i);
      assert list[i..] == [list[i]] + list[i + 1..];
      assert alarms == Keep(list, was, now, i) + [list[i]] + list[i + 1..];
      assert forall j :: 0 <= j < |list| && j != i ==> list[j] != list[i];
      ghost var front := ServeNext(list[i], Keep(list, was, now, i), list[i + 1..]);
    }

    /** alt_tick: advance the counter and serve every alarm that was on the list.
        Each fires now if and only if it is due now, and stays on the list unless its
        callback returned 0. */
    method Tick()
      requires Valid()
      modifies this, alarms
      ensures Valid() && now == old(now) + 1 && tickRate == old(tickRate)
      ensures forall j :: 0 <= j < |old(alarms)| ==> old(alarms)[j].Served(old(alarms[j].Snap()), now)
      ensures forall j :: 0 <= j < |old(alarms)| ==>
                (old(alarms)[j] in alarms <==> Alarm.Stays(old(alarms[j].Snap()), now))
      ensures forall j :: 0 <= j < |old(alarms)| ==> old(alarms)[j] in alarms || old(alarms)[j].Retired()
      ensures forall a :: a in alarms ==> a in old(alarms)
    {
      hide Alarm.Served, Alarm.Stays, Alarm.Armed, Alarm.Snap, Alarm.Retired, Midway, Valid;
      var list := alarms;
      ghost var was := SnapAll(list);
      Advance(was);
      Walk(list, was);
      AllServed(list, was);
    }

    /** The counter moves on, and no alarm has been served yet. */
    method Advance(ghost was: seq<Snapshot>)
      requires Valid() && was == SnapAll(alarms)
      modifies `nticks, `now
      ensures now == old(now) + 1 && Midway(alarms, was, 0)
    {
      hide Alarm.Served, Alarm.Stays, Alarm.Armed, Alarm.Snap, Alarm.Retired, Midway;
      nticks := ToU32(nticks + 1);
      now := now + 1;
      NoneServed(alarms, was);
    }

    /** The walk over the list. */
    method Walk(list: seq<Alarm>, ghost was: seq<Snapshot>)
      requires Midway(list, was, 0)
      modifies `alarms, list
      ensures Midway(list, was, |list|)
    {
      hide *;
      var i := 0;
      while i < |list|
        invariant 0 <= i <= |list| && Midway(list, was, i)
      {
        ServeOne(list, was, i);
        i := i + 1;
      }
    }

    lemma NoneServed(list: seq<Alarm>, was: seq<Snapshot>)
      requires Distinct(list) && alarms == list && now > 0 && nticks == now % TWO_32
      requires |was| == |list| && forall j :: 0 <= j < |list| ==> was[j] == list[j].Snap() && list[j].Armed(now - 1)
      ensures Midway(list, was, 0)
    {
    }

    lemma AllServed(list: seq<Alarm>, was: seq<Snapshot>)
      requires Midway(list, was, |list|)
      ensures Valid()
      ensures forall j :: 0 <= j < |list| ==>
                list[j].Served(was[j], now) && (list[j] in alarms <==> Alarm.Stays(was[j], now))
      ensures forall j :: 0 <= j < |list| ==> list[j] in alarms || list[j].Retired()
      ensures forall a :: a in alarms ==> a in list
    {
      hide Alarm.Served, Alarm.Stays, Alarm.Armed, Alarm.Snap, Alarm.Retired;
      assert list[|list|..] == [];
      KeepPart(list, was, now, |list|);
      forall i | 0 <= i < |alarms| ensures alarms[i].Armed(now) {
        var a := alarms[i];
        assert a in Keep(list, was, now, |list|);
      }
    }

    /** Any number of ticks: however often the counter wraps, every alarm that was
        set has fired on exactly the ticks of its schedule that have gone by. */
    method Run(ticks: nat)
      requires Valid()
      modifies this, alarms
      ensures Valid() && now == old(now) + ticks
      ensures forall a :: a in old(alarms) ==> Complete(a.log, old(a.first), old(a.callback), now)
    {
      hide Alarm.Armed, Complete, Alarm.Stays, Alarm.OnSchedule, Alarm.Retired, Alarm.Due, Distinct;
      ghost var list := alarms;
      forall a | a in list ensures a.UpToDate(alarms, now) {
        a.ArmedIsComplete(now);
      }
      for t := 0 to ticks
        invariant Valid() && now == old(now) + t && tickRate == old(tickRate)
        invariant forall k :: 0 <= k < |alarms| ==> alarms[k] in list
        invariant forall a :: a in list ==> a.first == old(a.first) && a.callback == old(a.callback)
        invariant forall a :: a in list ==> a.UpToDate(alarms, now)
      {
        ghost var before := alarms;
        assert forall a :: a in alarms ==> a in list;
        Tick();
        forall a | a in list ensures a.UpToDate(alarms, now) {
          if a in before {
            var j :| 0 <= j < |before| && before[j] == a;
          } else {
            a.StaysComplete(now);
          }
        }
      }
    }

    /** The life of one alarm among others.  Ticks pass, and other alarms are started
        and stopped in any order; an action that its callers may not take, starting an
        alarm that is listed or with an interval that cannot be expressed, does not
        happen.  The alarm has then fired on exactly the ticks of its schedule. */
    method Lifetime(a: Alarm, others: set<Alarm>, actions: seq<Action>)
      requires Valid() && a in alarms && a !in others
      requires forall b :: b in alarms ==> b == a || b in others
      requires forall k :: 0 <= k < |actions| && !actions[k].Passes? ==> actions[k].alarm in others
      modifies this, a, others
      ensures Valid() && (a in alarms || a.Retired()) && now == old(now) + Ticks(actions)
      ensures Complete(a.log, old(a.first), old(a.callback), now)
    {
      hide Alarm.Armed, Complete, Alarm.Stays, Alarm.OnSchedule, Alarm.Retired, Alarm.Due, Distinct, Expressible;
      a.ArmedIsComplete(now);
      assert actions[..|actions|] == actions;
      for k := 0 to |actions|
        invariant now == old(now) + Ticks(actions[..k])
        invariant Valid() && forall b :: b in alarms ==> b == a || b in others
        invariant a.first == old(a.first) && a.callback == old(a.callback)
        invariant a.UpToDate(alarms, now)
      {
        assert actions[..k + 1][..k] == actions[..k];
        match actions[k]
        case Passes =>
          TickFor(a);
        case Begins(b, interval, callback) =>
          if b !in alarms && Expressible(interval, nticks) {
            var _ := Start(b, interval, callback);
          }
        case Ends(b) =>
          StopKeeps(b);
      }
    }

    /** An alarm started at tick T with interval n fires first at T + n + 1, and then at
        that tick plus the running sum of what its callback returns, whatever else
        happens to the clock. */
    method StartAndLive(a: Alarm, interval: u32, callback: Periods, others: set<Alarm>, actions: seq<Action>)
      requires Valid() && tickRate != 0 && a !in alarms && a !in others && Expressible(interval, nticks)
      requires forall b :: b in alarms ==> b in others
      requires forall k :: 0 <= k < |actions| && !actions[k].Passes? ==> actions[k].alarm in others
      modifies this, a, others
      ensures Valid() && (a in alarms || a.Retired()) && now == old(now) + Ticks(actions)
      ensures Complete(a.log, old(now) + interval + 1, callback, now)
    {
      hide Complete, Alarm.Armed, Alarm.Retired, Distinct;
      var r := Start(a, interval, callback);
      assert r == Started;
      Lifetime(a, others, actions);
    }

    /** A tick, seen from one alarm. */
    method TickFor(a: Alarm)
      requires Valid() && a.UpToDate(alarms, now)
      modifies this, alarms
      ensures Valid() && a.UpToDate(alarms, now) && forall b :: b in alarms ==> b in old(alarms)
      ensures now == old(now) + 1
      ensures a.first == old(a.first) && a.callback == old(a.callback)
    {
      hide Alarm.Armed, Complete, Alarm.Stays, Alarm.OnSchedule, Alarm.Retired, Alarm.Due, Distinct;
      ghost var before := alarms;
      Tick();
      if a in before {
        var j :| 0 <= j < |before| && before[j] == a;
      } else {
        a.StaysComplete(now);
      }
    }

    /** Stopping an alarm leaves the others set. */
    method StopKeeps(b: Alarm)
      requires Valid()
      modifies `alarms
      ensures Valid() && forall c :: c in alarms <==> c in old(alarms) && c != b
    {
      hide Alarm.Armed, Distinct;
      ghost var list := alarms;
      Stop(b);
      forall i | 0 <= i < |alarms| ensures alarms[i].Armed(now) {
        assert alarms[i] in list;
      }
    }
  }

  ghost function SnapAll(list: seq<Alarm>): (was: seq<Snapshot>)
    reads list
    ensures |was| == |list| && forall j :: 0 <= j < |list| ==> was[j] == list[j].Snap()
  {
    if list == [] then [] else SnapAll(list[..|list| - 1]) + [list[|list| - 1].Snap()]
  }

  /** Those of the first n alarms that stay on the list. */
  ghost function Keep(list: seq<Alarm>, was: seq<Snapshot>, now: nat, n: nat): seq<Alarm>
    requires n <= |list| == |was|
  {
    if n == 0 then [] else
      Keep(list, was, now, n - 1) + (if Alarm.Stays(was[n - 1], now) then [list[n - 1]] else [])
  }

  lemma {:induction false} KeepPart(list: seq<Alarm>, was: seq<Snapshot>, now: nat, n: nat)
    requires n <= |list| == |was| && Distinct(list)
    ensures Distinct(Keep(list, was, now, n) + list[n..])
    ensures forall a :: a in Keep(list, was, now, n) ==>
              exists j :: 0 <= j < n && Alarm.Stays(was[j], now) && a == list[j]
    ensures forall j :: 0 <= j < n ==> (list[j] in Keep(list, was, now, n) <==> Alarm.Stays(was[j], now))
  {
    hide Alarm.Stays;
    if n == 0 {
      assert Keep(list, was, now, 0) + list[0..] == list;
    } else {
      KeepPart(list, was, now, n - 1);
      var front, a, back := Keep(list, was, now, n - 1), list[n - 1], list[n..];
      assert list[n - 1..] == [a] + back;
      var all := front + ([a] + back);
      assert front + list[n - 1..] == all;
      DropMiddle(front, a, back);
      assert (front + [a]) + back == all;
      assert front + [] == front;
    }
  }

  lemma DropMiddle(front: seq<Alarm>, a: Alarm, back: seq<Alarm>)
    requires Distinct(front + ([a] + back))
    ensures Distinct(front + back) && a !in front && a !in back
  {
    var all, n := front + ([a] + back), |front|;
    assert all[n] == a;
    assert forall k :: 0 <= k < n ==> all[k] == front[k];
    assert forall k :: 0 <= k < |back| ==> all[n + 1 + k] == back[k];
  }

  predicate Distinct(list: seq<Alarm>) {
    forall i, j :: 0 <= i < j < |list| ==> list[i] != list[j]
  }

  /** Unlinking one alarm. */
  function Without(list: seq<Alarm>, a: Alarm): seq<Alarm> {
    if list == [] then [] else (if list[0] == a then [] else [list[0]]) + Without(list[1..], a)
  }

  lemma {:induction false} WithoutOne(list: seq<Alarm>, a: Alarm)
    requires Distinct(list)
    ensures Distinct(Without(list, a))
    ensures forall b :: b in Without(list, a) <==> b in list && b != a
  {
    if list != [] {
      var head, rest := list[0], list[1..];
      assert list == [head] + rest;
      assert head !in rest;
      WithoutOne(rest, a);
    }
  }

  lemma {:induction false} WithoutMiddle(front: seq<Alarm>, a: Alarm, back: seq<Alarm>)
    requires Distinct(front + [a] + back)
    ensures Without(front + [a] + back, a) == front + back
  {
    var list := front + [a] + back;
    if front == [] {
      assert list[1..] == back;
      assert a !in back;
      WithoutAbsent(back, a);
    } else {
      assert Distinct(list[1..]);
      assert list[1..] == front[1..] + [a] + back;
      assert list[0] != list[|front|];
      WithoutMiddle(front[1..], a, back);
      assert front + back == [front[0]] + (front[1..] + back);
    }
  }

  lemma {:induction false} WithoutAbsent(list: seq<Alarm>, a: Alarm)
    requires a !in list
    ensures Without(list, a) == list
  {
    if list != [] {
      WithoutAbsent(list[1..], a);
    }
  }
}
