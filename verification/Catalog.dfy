/** `ACPSessionCatalog` (src/synapse/acp/lifecycle.py:59-358): the two tables and the statements that change or
    read them. */
module Catalog {
  import opened Wrappers
  import Paging
  import UpdateLog

  class ACPSessionCatalog {
    var sessions: Paging.Table
    var updates: map<string, UpdateLog.Log>

    /** Only known sessions have updates, and what is stored reads back as an object. */
    ghost predicate Valid()
      reads this
    {
      updates.Keys <= sessions.Keys && forall id, k :: id in updates && k in updates[id] ==> updates[id][k].JsonObject?
    }

    ghost function LogOf(id: string): UpdateLog.Log
      reads this
    {
      if id in updates then updates[id] else map[]
    }

    constructor ()
      ensures Valid() && sessions == map[] && updates == map[]
    {
      sessions, updates := map[], map[];
    }

    /** `create`; a second row for one id violates the primary key (the thread id is always the session id).  A new
        session has nothing to replay, whatever was stored under its id before. */
    method Create(id: string, cwd: string, title: Option<string>, details: string, now: string) returns (ok: bool)
      requires Valid()
      modifies this
      ensures Valid() && updates == old(updates)
      ensures ok <==> id !in old(sessions)
      ensures sessions == if ok then old(sessions)[id := Paging.Row(now, cwd, title, details)] else old(sessions)
      ensures ok ==> LogOf(id) == map[]
    {
      if id in sessions { return false; }
      sessions := sessions[id := Paging.Row(now, cwd, title, details)];
      return true;
    }

    /** `touch`: no title leaves the stored one. */
    method Touch(id: string, title: Option<string>, now: string) returns (ok: bool)
      requires Valid()
      modifies this`sessions
      ensures Valid() && (ok <==> id in old(sessions))
      ensures !ok ==> sessions == old(sessions)
      ensures ok ==>
                var row := old(sessions)[id];
                var newTitle := if title.Some? then title else row.title;
                sessions == old(sessions)[id := row.(updatedAt := now, title := newTitle)]
    {
      if id !in sessions { return false; }
      var row := sessions[id];
      sessions := sessions[id := row.(updatedAt := now, title := if title.Some? then title else row.title)];
      return true;
    }

    method Delete(id: string) returns (ok: bool)
      requires Valid()
      modifies this
      ensures Valid() && (ok <==> id in old(sessions))
      ensures sessions == old(sessions) - {id} && updates == old(updates) - {id}
    {
      ok := id in sessions;
      sessions, updates := sessions - {id}, updates - {id};
    }

    /** `append_update`: ignored for an unknown session; otherwise insert or replace, touch, prune. */
    method AppendUpdate(id: string, sequence: int, index: int, payload: string, now: string)
      requires Valid()
      modifies this
      ensures Valid()
      ensures id !in old(sessions) ==> sessions == old(sessions) && updates == old(updates)
      ensures id in old(sessions) ==>
                && sessions == old(sessions)[id := old(sessions)[id].(updatedAt := now)]
                && updates == old(updates)[id := UpdateLog.AppendTo(old(LogOf(id)),
                                                   UpdateLog.Append((sequence, index), UpdateLog.JsonObject(payload)),
                                                   UpdateLog.MAX_UPDATES)]
    {
      if id !in sessions { return; }
      var log: UpdateLog.Log := if id in updates then updates[id] else map[];
      log := log[(sequence, index) := UpdateLog.JsonObject(payload)];
      updates := updates[id := log];
      var _ := Touch(id, None, now);
      PruneUpdates(id);
    }

    /** `_prune_updates`: delete what the subquery does not select. */
    method PruneUpdates(id: string)
      requires Valid() && id in updates
      modifies this`updates
      ensures Valid()
      ensures updates == old(updates)[id := UpdateLog.Prune(old(updates)[id], UpdateLog.MAX_UPDATES)]
    {
      var log := updates[id];
      var newest := UpdateLog.Top(log.Keys, UpdateLog.MAX_UPDATES);
      var todo := log.Keys;
      var left := log;
      while todo != {}
        invariant todo <= log.Keys
        invariant left == map k | k in log && (k in todo || k in newest) :: log[k]
      {
        var k :| k in todo;
        todo := todo - {k};
        if k !in newest {
          left := left - {k};
        }
      }
      assert left == UpdateLog.Prune(log, UpdateLog.MAX_UPDATES);
      updates := updates[id := left];
    }

    /** `next_update_sequence` */
    method NextUpdateSequence(id: string) returns (next: int)
      ensures UpdateLog.IsMaxSequence(LogOf(id), next - 1)
    {
      var log: UpdateLog.Log := if id in updates then updates[id] else map[];
      if log == map[] { return 1; }
      var todo := log.Keys;
      var k :| k in todo;
      todo := todo - {k};
      var best := k;
      while todo != {}
        invariant todo <= log.Keys && best in log
        invariant forall j :: j in log && j !in todo ==> j.0 <= best.0
      {
        var j :| j in todo;
        todo := todo - {j};
        if j.0 > best.0 { best := j; }
      }
      return best.0 + 1;
    }

    /** `updates`: sorted by repeatedly taking the least key left; what does not read back as an object is skipped,
        so nothing is. */
    method Updates(id: string) returns (payloads: seq<UpdateLog.Payload>)
      requires Valid()
      ensures UpdateLog.IsReplay(payloads, LogOf(id))
      ensures id !in sessions ==> payloads == []
    {
      payloads := [];
      ghost var keys: seq<UpdateLog.Key> := [];
      var log: UpdateLog.Log := if id in updates then updates[id] else map[];
      var todo := log.Keys;
      while todo != {}
        invariant todo <= log.Keys && UpdateLog.Carries(payloads, keys, log)
        invariant forall k :: k in keys <==> k in log && k !in todo
        invariant forall i, j :: 0 <= i < j < |keys| ==> UpdateLog.Less(keys[i], keys[j])
        invariant forall i, k :: 0 <= i < |keys| && k in todo ==> UpdateLog.Less(keys[i], k)
      {
        var k := Least(todo);
        todo := todo - {k};
        if log[k].JsonObject? {
          payloads, keys := payloads + [log[k]], keys + [k];
        }
      }
      assert UpdateLog.Lists(keys, LogOf(id)) && UpdateLog.Carries(payloads, keys, LogOf(id));
      if id !in sessions { UpdateLog.EmptyReplay(payloads); }
    }
  }

  method Least(keys: set<UpdateLog.Key>) returns (least: UpdateLog.Key)
    requires keys != {}
    ensures least in keys && forall k :: k in keys ==> k == least || UpdateLog.Less(least, k)
  {
    least :| least in keys;
    var todo := keys - {least};
    while todo != {}
      invariant todo <= keys && least in keys
      invariant forall k :: k in keys && k !in todo ==> k == least || UpdateLog.Less(least, k)
    {
      var k :| k in todo;
      todo := todo - {k};
      if UpdateLog.Less(k, least) { least := k; }
    }
  }
}
