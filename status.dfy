/**
  The per-slave status dictionary as the alert manager and the database
  manager read it: every key may be absent, and `last_ok` is a timestamp
  string that may be missing or may not be usable as a point in time.
 */
module Status {
  import opened Wrappers

  /**
    The `last_ok` entry: absent or empty (`NoStamp`), present but rejected
    when read as a time (`Unreadable`), or a point in time in seconds.
   */
  datatype Stamp = NoStamp | Unreadable | At(time: int)

  datatype SiloStatus = SiloStatus(
    value: Option<int>,
    percent: Option<int>,
    online: Option<bool>,
    lastOk: Stamp,
    lastError: Option<string>)

  /** `status.get('online', False)`. */
  function IsOnline(s: SiloStatus): bool {
    s.online.GetOr(false)
  }

  /** One `(slave_id, status)` item of the status dictionary. */
  datatype Slave = Slave(id: int, status: SiloStatus)

  /** The items of a dictionary, in iteration order, have distinct keys. */
  predicate DistinctIds(d: seq<Slave>) {
    forall i, j :: 0 <= i < j < |d| ==> d[i].id != d[j].id
  }
}
