/**
  The Telegram alert manager: an edge-triggered offline/recovery state
  machine over the status dictionary, a per-slave cooldown on offline
  alerts, and the offline list of the daily report. Times are in seconds;
  whether Telegram accepted a message is an input.
 */
module Alerts {
  import opened Wrappers
  import opened Status
  import Decimal

  const SecondsPerMinute: int := 60
  const DefaultOfflineThresholdMinutes: int := 5
  const DefaultCooldownMinutes: int := 15

  /**
    "Offline too long": an offline slave with no usable last-good-read
    time, or one whose last good read is older than the threshold.
   */
  function OfflineTooLong(s: SiloStatus, now: int, threshold: int): (r: bool)
    ensures IsOnline(s) ==> !r
    ensures !IsOnline(s) ==>
      (r <==> s.lastOk.NoStamp? || s.lastOk.Unreadable? || now - s.lastOk.time > threshold)
  {
    if !IsOnline(s) then
      match s.lastOk
      case At(t) => now - t > threshold
      case Unreadable => true
      case NoStamp => true
    else
      false
  }

  /** Once a slave is offline too long it stays so as time passes, until its status changes. */
  lemma OfflineTooLongPersists(s: SiloStatus, now: int, later: int, threshold: int)
    requires now <= later && OfflineTooLong(s, now, threshold)
    ensures OfflineTooLong(s, later, threshold)
  {
  }

  /** The item starts an outage: offline too long and not yet in the offline set. */
  predicate GoesOffline(e: Slave, offline: set<int>, now: int, threshold: int) {
    OfflineTooLong(e.status, now, threshold) && e.id !in offline
  }

  /** The item ends an outage: online again and still in the offline set. */
  predicate ComesBack(e: Slave, offline: set<int>) {
    IsOnline(e.status) && e.id in offline
  }

  /** The `newly_offline` set of one check, against the offline set before it. */
  function NewlyOffline(d: seq<Slave>, offline: set<int>, now: int, threshold: int): set<int> {
    if d == [] then {}
    else
      var n := |d| - 1;
      NewlyOffline(d[..n], offline, now, threshold) + if GoesOffline(d[n], offline, now, threshold) then {d[n].id} else {}
  }

  /** The `back_online` set of one check, against the offline set before it. */
  function BackOnline(d: seq<Slave>, offline: set<int>): set<int> {
    if d == [] then {}
    else
      var n := |d| - 1;
      BackOnline(d[..n], offline) + if ComesBack(d[n], offline) then {d[n].id} else {}
  }

  lemma {:induction false} NewlyOfflineMembers(d: seq<Slave>, offline: set<int>, now: int, threshold: int, x: int)
    ensures x in NewlyOffline(d, offline, now, threshold) <==>
      exists i :: 0 <= i < |d| && d[i].id == x && GoesOffline(d[i], offline, now, threshold)
  {
    if d != [] {
      var n := |d| - 1;
      NewlyOfflineMembers(d[..n], offline, now, threshold, x);
      if x in NewlyOffline(d[..n], offline, now, threshold) {
        var i :| 0 <= i < n && d[..n][i].id == x && GoesOffline(d[..n][i], offline, now, threshold);
        assert d[i] == d[..n][i];
      }
      if exists i :: 0 <= i < |d| && d[i].id == x && GoesOffline(d[i], offline, now, threshold) {
        var i :| 0 <= i < |d| && d[i].id == x && GoesOffline(d[i], offline, now, threshold);
        if i < n {
          assert d[..n][i] == d[i];
        }
      }
    }
  }

  lemma {:induction false} BackOnlineMembers(d: seq<Slave>, offline: set<int>, x: int)
    ensures x in BackOnline(d, offline) <==>
      exists i :: 0 <= i < |d| && d[i].id == x && ComesBack(d[i], offline)
  {
    if d != [] {
      var n := |d| - 1;
      BackOnlineMembers(d[..n], offline, x);
      if x in BackOnline(d[..n], offline) {
        var i :| 0 <= i < n && d[..n][i].id == x && ComesBack(d[..n][i], offline);
        assert d[i] == d[..n][i];
      }
      if exists i :: 0 <= i < |d| && d[i].id == x && ComesBack(d[i], offline) {
        var i :| 0 <= i < |d| && d[i].id == x && ComesBack(d[i], offline);
        if i < n {
          assert d[..n][i] == d[i];
        }
      }
    }
  }

  /** The `currently_offline` set after one check. */
  function NextOffline(d: seq<Slave>, offline: set<int>, now: int, threshold: int): set<int> {
    offline - BackOnline(d, offline) + NewlyOffline(d, offline, now, threshold)
  }

  /**
    The two transition sets of a check are disjoint; a newly offline slave
    was not offline before and is afterwards; a slave back online was
    offline before and is not afterwards; every other slave keeps its
    membership.
   */
  lemma TransitionSets(d: seq<Slave>, offline: set<int>, now: int, threshold: int)
    ensures NewlyOffline(d, offline, now, threshold) !! BackOnline(d, offline)
    ensures NewlyOffline(d, offline, now, threshold) !! offline
    ensures BackOnline(d, offline) <= offline
    ensures NewlyOffline(d, offline, now, threshold) <= NextOffline(d, offline, now, threshold)
    ensures BackOnline(d, offline) !! NextOffline(d, offline, now, threshold)
    ensures forall x :: x !in NewlyOffline(d, offline, now, threshold) && x !in BackOnline(d, offline) ==>
      (x in NextOffline(d, offline, now, threshold) <==> x in offline)
  {
  }

  /** The offline set after a sequence of checks, made at the given times. */
  function OfflineAfter(offline: set<int>, checks: seq<seq<Slave>>, times: seq<int>, threshold: int): set<int>
    requires |times| == |checks|
  {
    if checks == [] then offline
    else
      var n := |checks| - 1;
      NextOffline(checks[n], OfflineAfter(offline, checks[..n], times[..n], threshold), times[n], threshold)
  }

  /** No check of the sequence reports `x` back online. */
  predicate NeverBack(offline: set<int>, checks: seq<seq<Slave>>, times: seq<int>, threshold: int, x: int)
    requires |times| == |checks|
  {
    if checks == [] then true
    else
      var n := |checks| - 1;
      NeverBack(offline, checks[..n], times[..n], threshold, x) &&
      x !in BackOnline(checks[n], OfflineAfter(offline, checks[..n], times[..n], threshold))
  }

  /** A slave in the offline set stays there until a check reports it back online. */
  lemma {:induction false} StaysOffline(offline: set<int>, checks: seq<seq<Slave>>, times: seq<int>, threshold: int, x: int)
    requires |times| == |checks| && x in offline
    requires NeverBack(offline, checks, times, threshold, x)
    ensures x in OfflineAfter(offline, checks, times, threshold)
  {
    if checks != [] {
      var n := |checks| - 1;
      StaysOffline(offline, checks[..n], times[..n], threshold, x);
      TransitionSets(checks[n], OfflineAfter(offline, checks[..n], times[..n], threshold), times[n], threshold);
    }
  }

  lemma {:induction false} NeverBackPrefix(offline: set<int>, checks: seq<seq<Slave>>, times: seq<int>, threshold: int, x: int, c: nat)
    requires |times| == |checks| && c <= |checks|
    requires NeverBack(offline, checks, times, threshold, x)
    ensures NeverBack(offline, checks[..c], times[..c], threshold, x)
  {
    if c < |checks| {
      var n := |checks| - 1;
      assert checks[..n][..c] == checks[..c] && times[..n][..c] == times[..c];
      NeverBackPrefix(offline, checks[..n], times[..n], threshold, x, c);
    } else {
      assert checks[..c] == checks && times[..c] == times;
    }
  }

  /**
    At most one offline transition per outage: once a slave is in the
    offline set, no later check reports it newly offline until a check
    reports it back online.
   */
  lemma OneOfflineTransitionPerOutage(offline: set<int>, checks: seq<seq<Slave>>, times: seq<int>, threshold: int, x: int)
    requires |times| == |checks| && x in offline
    requires NeverBack(offline, checks, times, threshold, x)
    ensures x in OfflineAfter(offline, checks, times, threshold)
    ensures forall c :: 0 <= c < |checks| ==>
      x !in NewlyOffline(checks[c], OfflineAfter(offline, checks[..c], times[..c], threshold), times[c], threshold)
  {
    StaysOffline(offline, checks, times, threshold, x);
    forall c | 0 <= c < |checks|
      ensures x !in NewlyOffline(checks[c], OfflineAfter(offline, checks[..c], times[..c], threshold), times[c], threshold)
    {
      NeverBackPrefix(offline, checks, times, threshold, x, c);
      StaysOffline(offline, checks[..c], times[..c], threshold, x);
      TransitionSets(checks[c], OfflineAfter(offline, checks[..c], times[..c], threshold), times[c], threshold);
    }
  }

  /** `m` with the entries of `ids` set to `now`. */
  function Restamp(m: map<int, int>, ids: set<int>, now: int): (r: map<int, int>)
    ensures r.Keys == m.Keys + ids
    ensures forall k :: k in r ==> r[k] == if k in ids then now else m[k]
  {
    map k | k in m.Keys + ids :: if k in ids then now else m[k]
  }

  /** The ids whose `online` flag is false, in iteration order. */
  function OfflineIds(d: seq<Slave>): seq<int> {
    if d == [] then []
    else
      var n := |d| - 1;
      OfflineIds(d[..n]) + if IsOnline(d[n].status) then [] else [d[n].id]
  }

  function Strs(ids: seq<int>): seq<string> {
    if ids == [] then [] else Strs(ids[..|ids| - 1]) + [Decimal.Str(ids[|ids| - 1])]
  }

  /** The "Offline:" line of the daily report. */
  function OfflineListText(d: seq<Slave>): string {
    var ids := OfflineIds(d);
    if ids == [] then "Nessuno" else Decimal.Join(Strs(ids), ", ")
  }

  lemma {:induction false} OfflineIdsMembers(d: seq<Slave>, x: int)
    ensures x in OfflineIds(d) <==> exists i :: 0 <= i < |d| && d[i].id == x && !IsOnline(d[i].status)
  {
    if d != [] {
      var n := |d| - 1;
      OfflineIdsMembers(d[..n], x);
      if x in OfflineIds(d[..n]) {
        var i :| 0 <= i < n && d[..n][i].id == x && !IsOnline(d[..n][i].status);
        assert d[i] == d[..n][i];
      }
      if exists i :: 0 <= i < |d| && d[i].id == x && !IsOnline(d[i].status) {
        var i :| 0 <= i < |d| && d[i].id == x && !IsOnline(d[i].status);
        if i < n {
          assert d[..n][i] == d[i];
        }
      }
    }
  }

  /** The list keeps iteration order: the list of a concatenation is the concatenation of the lists. */
  lemma {:induction false} OfflineIdsAppend(a: seq<Slave>, b: seq<Slave>)
    ensures OfflineIds(a + b) == OfflineIds(a) + OfflineIds(b)
    decreases |b|
  {
    if b != [] {
      var n := |b| - 1;
      var tail := if IsOnline(b[n].status) then [] else [b[n].id];
      assert (a + b)[..|a + b| - 1] == a + b[..n];
      assert (a + b)[|a + b| - 1] == b[n];
      calc {
        OfflineIds(a + b);
        OfflineIds(a + b[..n]) + tail;
        { OfflineIdsAppend(a, b[..n]); }
        OfflineIds(a) + OfflineIds(b[..n]) + tail;
        OfflineIds(a) + OfflineIds(b);
      }
    } else {
      assert a + b == a;
    }
  }

  lemma {:induction false} StrsFirst(ids: seq<int>)
    requires ids != []
    ensures |Strs(ids)| == |ids| && Strs(ids)[0] == Decimal.Str(ids[0])
    decreases |ids|
  {
    if |ids| > 1 {
      var n := |ids| - 1;
      StrsFirst(ids[..n]);
    }
  }

  /** The report says "Nessuno" exactly when every slave's `online` flag is true. */
  lemma OfflineListNone(d: seq<Slave>)
    ensures OfflineListText(d) == "Nessuno" <==> forall i :: 0 <= i < |d| ==> IsOnline(d[i].status)
  {
    var ids := OfflineIds(d);
    if ids != [] {
      OfflineIdsMembers(d, ids[0]);
      StrsFirst(ids);
      var first := Decimal.Str(ids[0]);
      assert OfflineListText(d)[..|first|] == first;
      assert OfflineListText(d)[0] == first[0] != 'N';
    } else {
      forall i | 0 <= i < |d| ensures IsOnline(d[i].status) {
        OfflineIdsMembers(d, d[i].id);
      }
    }
  }

  /** Some element of a non-empty set: the next slave of a `for ... in` over a set, whose order Python leaves open. */
  method Pick(s: set<int>) returns (x: int)
    requires s != {}
    ensures x in s
  {
    HasElement(s);
    x :| x in s;
  }

  lemma HasElement(s: set<int>)
    requires s != {}
    ensures exists x :: x in s
  {
    if forall x :: x !in s {
      assert false;
    }
  }

  class AlertManager {
    const enabled: bool
    const offlineThreshold: int
    const cooldownPeriod: int
    /** The time of the last offline alert sent, per slave. */
    var lastAlerts: map<int, int>
    var currentlyOffline: set<int>

    /** A slave has an alert time only while it is in the offline set. */
    ghost predicate Valid()
      reads this
    {
      lastAlerts.Keys <= currentlyOffline
    }

    /**
      Alerts are enabled when the configuration enables them, the bot token
      and chat id are set, and the connection test succeeds.
     */
    constructor (alertsEnabled: bool, credentialsPresent: bool, telegramReachable: bool,
                 offlineThresholdMinutes: Option<int>, cooldownMinutes: Option<int>)
      ensures Valid()
      ensures enabled == (alertsEnabled && credentialsPresent && telegramReachable)
      ensures offlineThreshold == offlineThresholdMinutes.GetOr(DefaultOfflineThresholdMinutes) * SecondsPerMinute
      ensures cooldownPeriod == cooldownMinutes.GetOr(DefaultCooldownMinutes) * SecondsPerMinute
      ensures lastAlerts == map[] && currentlyOffline == {}
    {
      enabled := alertsEnabled && credentialsPresent && telegramReachable;
      offlineThreshold := offlineThresholdMinutes.GetOr(DefaultOfflineThresholdMinutes) * SecondsPerMinute;
      cooldownPeriod := cooldownMinutes.GetOr(DefaultCooldownMinutes) * SecondsPerMinute;
      lastAlerts := map[];
      currentlyOffline := {};
    }

    predicate InCooldown(id: int, now: int)
      reads this
    {
      id in lastAlerts && now - lastAlerts[id] < cooldownPeriod
    }

    /**
      An offline alert for `id` at `now`: suppressed during the cooldown;
      otherwise handed to Telegram, and the alert time is recorded only if
      the message went out (`delivered`, and alerts enabled).
     */
    method SendOfflineAlert(id: int, now: int, delivered: bool) returns (attempted: bool)
      requires Valid() && id in currentlyOffline
      modifies this`lastAlerts
      ensures Valid()
      ensures attempted == !old(InCooldown(id, now))
      ensures lastAlerts == if attempted && enabled && delivered then old(lastAlerts)[id := now] else old(lastAlerts)
    {
      if InCooldown(id, now) {
        return false;
      }
      attempted := true;
      var sent := enabled && delivered;
      if sent {
        lastAlerts := lastAlerts[id := now];
      }
    }

    /**
      One check over the status dictionary at time `now`: computes the
      transition sets, updates the offline set and the alert times, then
      sends an offline alert per newly offline slave (Telegram accepts the
      ones in `delivered`). Returns the transition sets and the slaves whose
      offline alert passed the cooldown and was handed to Telegram.
     */
    method CheckAndSendAlerts(siloData: seq<Slave>, now: int, delivered: set<int>)
      returns (newlyOffline: set<int>, backOnline: set<int>, offlineAlerted: set<int>)
      requires Valid() && DistinctIds(siloData)
      modifies this
      ensures Valid()
      ensures !enabled ==>
        newlyOffline == {} && backOnline == {} && offlineAlerted == {} &&
        lastAlerts == old(lastAlerts) && currentlyOffline == old(currentlyOffline)
      ensures enabled ==>
        && newlyOffline == NewlyOffline(siloData, old(currentlyOffline), now, offlineThreshold)
        && backOnline == BackOnline(siloData, old(currentlyOffline))
        && currentlyOffline == NextOffline(siloData, old(currentlyOffline), now, offlineThreshold)
        && offlineAlerted == newlyOffline
        && lastAlerts == Restamp(old(lastAlerts) - backOnline, newlyOffline * delivered, now)
    {
      newlyOffline, backOnline, offlineAlerted := {}, {}, {};
      if !enabled {
        return;
      }
      ghost var offline0, alerts0 := currentlyOffline, lastAlerts;
      var i := 0;
      while i < |siloData|
        invariant 0 <= i <= |siloData|
        invariant Valid()
        invariant newlyOffline == NewlyOffline(siloData[..i], offline0, now, offlineThreshold)
        invariant backOnline == BackOnline(siloData[..i], offline0)
        invariant currentlyOffline == offline0 - backOnline + newlyOffline
        invariant lastAlerts == alerts0 - backOnline
      {
        var e := siloData[i];
        assert siloData[..i + 1][..i] == siloData[..i];
        NewlyOfflineMembers(siloData[..i], offline0, now, offlineThreshold, e.id);
        BackOnlineMembers(siloData[..i], offline0, e.id);
        var tooLong := OfflineTooLong(e.status, now, offlineThreshold);
        var wasOffline := e.id in currentlyOffline;
        assert wasOffline == (e.id in offline0);
        if tooLong && !wasOffline {
          newlyOffline := newlyOffline + {e.id};
          currentlyOffline := currentlyOffline + {e.id};
        } else if IsOnline(e.status) && wasOffline {
          backOnline := backOnline + {e.id};
          currentlyOffline := currentlyOffline - {e.id};
          if e.id in lastAlerts {
            lastAlerts := lastAlerts - {e.id};
          }
        }
        i := i + 1;
      }
      assert siloData[..i] == siloData;
      TransitionSets(siloData, offline0, now, offlineThreshold);
      offlineAlerted := SendOfflineAlerts(newlyOffline, now, delivered);
    }

    /**
      The loop over `newly_offline` that sends one offline alert each and
      returns the slaves whose alert was not suppressed by the cooldown. The
      slaves are fresh in the offline set, so none is in its cooldown and
      every alert is handed to Telegram.
     */
    method SendOfflineAlerts(newlyOffline: set<int>, now: int, delivered: set<int>) returns (offlineAlerted: set<int>)
      requires Valid() && newlyOffline <= currentlyOffline && newlyOffline !! lastAlerts.Keys
      modifies this`lastAlerts
      ensures Valid()
      ensures offlineAlerted == newlyOffline
      ensures enabled ==> lastAlerts == Restamp(old(lastAlerts), newlyOffline * delivered, now)
      ensures !enabled ==> lastAlerts == old(lastAlerts)
    {
      offlineAlerted := {};
      var pending := newlyOffline;
      while pending != {}
        invariant pending <= newlyOffline
        invariant pending !! lastAlerts.Keys
        invariant offlineAlerted == newlyOffline - pending
        invariant Valid()
        invariant enabled ==> lastAlerts == Restamp(old(lastAlerts), offlineAlerted * delivered, now)
        invariant !enabled ==> lastAlerts == old(lastAlerts)
        decreases pending
      {
        var id := Pick(pending);
        var attempted := SendOfflineAlert(id, now, id in delivered);
        if attempted {
          offlineAlerted := offlineAlerted + {id};
        }
        pending := pending - {id};
      }
    }

    /**
      The offline list of the daily report, or `None` when alerts are
      disabled and no report is built.
     */
    method DailyReportOfflineList(siloData: seq<Slave>) returns (offlineList: Option<string>)
      ensures !enabled ==> offlineList == None
      ensures enabled ==> offlineList == Some(OfflineListText(siloData))
    {
      if !enabled {
        return None;
      }
      var offlineSlaves: seq<string> := [];
      var i := 0;
      while i < |siloData|
        invariant 0 <= i <= |siloData|
        invariant offlineSlaves == Strs(OfflineIds(siloData[..i]))
      {
        assert siloData[..i + 1][..i] == siloData[..i];
        ghost var ids := OfflineIds(siloData[..i]);
        assert siloData[..i + 1][i] == siloData[i];
        assert (ids + [siloData[i].id])[..|ids|] == ids;
        if !IsOnline(siloData[i].status) {
          assert OfflineIds(siloData[..i + 1]) == ids + [siloData[i].id];
          assert Strs(ids + [siloData[i].id]) == Strs(ids) + [Decimal.Str(siloData[i].id)];
          offlineSlaves := offlineSlaves + [Decimal.Str(siloData[i].id)];
          assert offlineSlaves == Strs(OfflineIds(siloData[..i + 1]));
        } else {
          assert OfflineIds(siloData[..i + 1]) == ids;
          assert offlineSlaves == Strs(OfflineIds(siloData[..i + 1]));
        }
        i := i + 1;
      }
      assert siloData[..i] == siloData;
      offlineList := Some(if offlineSlaves == [] then "Nessuno" else Decimal.Join(offlineSlaves, ", "));
    }
  }
}
