/**
 * The activity log every handler appends to.
 */
module LoggingService {
  import opened Models
  import opened Schemas
  import opened Store

  /** The row `log_activity` inserts: the next key, the action, the insertion time and the user. */
  function NewLog(logs: seq<ActivityLog>, action: string, userId: nat, now: int): (log: ActivityLog)
    ensures forall i :: 0 <= i < |logs| ==> logs[i].id < log.id
    ensures log.action == action && log.userId == userId && log.timestamp == now
  {
    ActivityLog(NextId(LogIds(logs)), action, now, userId)
  }

  /** Appending the row keeps log keys distinct. */
  lemma NewLogKeepsKeysDistinct(logs: seq<ActivityLog>, action: string, userId: nat, now: int)
    requires DistinctLogIds(logs)
    ensures DistinctLogIds(logs + [NewLog(logs, action, userId, now)])
  {
    var logs' := logs + [NewLog(logs, action, userId, now)];
    forall i, j | 0 <= i < j < |logs'| ensures logs'[i].id != logs'[j].id {
      assert logs'[i] == logs[i];
      if j < |logs| {
        assert logs'[j] == logs[j];
      }
    }
  }

  /**
   * `log_activity`: inserts an activity log row for `userId` with the given
   * action, stamped with the current time, and returns it as a response.
   */
  method LogActivity(db: Database, action: string, userId: nat, now: int) returns (r: ActivityLogResponse)
    requires db.Valid()
    modifies db`logs
    ensures db.Valid()
    ensures db.logs == old(db.logs) + [NewLog(old(db.logs), action, userId, now)]
    ensures r == LogResponse(NewLog(old(db.logs), action, userId, now))
  {
    var log := NewLog(db.logs, action, userId, now);
    NewLogKeepsKeysDistinct(db.logs, action, userId, now);
    db.logs := db.logs + [log];
    r := LogResponse(log);
  }
}
