/** The per-device command queue and response actions on the server
    (server/app/services/response.py:20-103, server/app/routers/agents.py:162-181,
    server/app/routers/admin.py:92-97 and 190-206, server/app/detection/engine.py:192-198, server/app/auth.py:149-156). */
module CommandQueue {
  import opened Text
  import opened Ingest

  datatype Value = Str(s: string) | Int(n: int)

  /** A queued command is a dictionary. */
  type Command = map<string, Value>

  /** Actions the agent executes, with the command that is queued for each. */
  const AGENT_ACTIONS: map<string, string> := map[
    "kill_process" := "kill_process", "delete_file" := "delete_file", "restore_file" := "restore_quarantine",
    "remote_scan" := "remote_scan", "remote_update" := "remote_update", "isolate" := "isolate", "release" := "release"]

  const SERVER_ACTIONS: set<string> := {"block_domain", "block_ip", "block_hash"}

  /** The parameters come last, so they win over the two keys before them. */
  function ActionCommand(command: string, params: Command, actionId: int): Command {
    map["command" := Str(command), "action_id" := Int(actionId)] + params
  }

  function NameOf(c: Command): string {
    if "command" in c && c["command"].Str? then c["command"].s else ""
  }

  predicate Carries(c: Command, k: int) {
    "action_id" in c && c["action_id"] == Int(k)
  }

  /** The queued command asks for what was dispatched, under the action's id, exactly when the parameters do not say otherwise. */
  lemma CommandCarriesExactly(command: string, params: Command, k: int)
    ensures var c := ActionCommand(command, params, k);
      Carries(c, k) && "command" in c && c["command"] == Str(command)
      <==> ("action_id" in params ==> params["action_id"] == Int(k)) && ("command" in params ==> params["command"] == Str(command))
  {
  }

  predicate CleanParams(params: Command) {
    "command" !in params && "action_id" !in params
  }

  function IsolationCommand(isolated: bool): Command {
    map["command" := Str(if isolated then "isolate" else "release")]
  }

  function RestoreCommand(q: string): Command {
    map["command" := Str("restore_quarantine"), "id" := Str(q)]
  }

  datatype Outcome = Granted | Refused(status: int)

  function Flatten(lists: seq<seq<Command>>): seq<Command> {
    if lists == [] then [] else Flatten(lists[..|lists| - 1]) + lists[|lists| - 1]
  }

  /** The device row as a telemetry request has loaded it, before its first commit; nothing reads it again. */
  datatype Row = Row(list: seq<Command>, isolated: bool)

  /** One enrolled device. `queued` and `handed` record, for the proof, every command ever queued and every list handed out. */
  class Device {
    var isolated: bool
    var pending: seq<Command>
    ghost var queued: seq<Command>
    ghost var handed: seq<seq<Command>>

    /** Nothing queued is lost, repeated or reordered. */
    ghost predicate InOrder()
      reads this
    {
      Flatten(handed) + pending == queued
    }

    constructor ()
      ensures InOrder() && !isolated && pending == [] && queued == [] && handed == []
    {
      isolated, pending, queued, handed := false, [], [], [];
    }

    /** A writer copies a list, appends to the copy, and stores the copy. */
    method Store(list: seq<Command>, c: Command)
      modifies this`pending, this`queued
      ensures pending == list + [c] && queued == old(queued) + [c]
      ensures old(InOrder()) && list == old(pending) ==> InOrder()
    {
      var cmds := list;
      cmds := cmds + [c];
      pending := cmds;
      queued := queued + [c];
    }

    method SetIsolation(on: bool)
      modifies this
      ensures isolated == on && handed == old(handed)
      ensures pending == old(pending) + [IsolationCommand(on)] && queued == old(queued) + [IsolationCommand(on)]
      ensures old(InOrder()) ==> InOrder()
    {
      isolated := on;
      Store(pending, IsolationCommand(on));
    }

    method Load() returns (row: Row)
      ensures row == Row(pending, isolated)
    {
      row := Row(pending, isolated);
    }

    /** A critical detection isolates a device that was not isolated when the telemetry request loaded it; the command is
        appended to the list loaded then. */
    method AutoIsolate(row: Row) returns (row': Row)
      modifies this
      ensures handed == old(handed)
      ensures row.isolated ==> row' == row && isolated == old(isolated) && pending == old(pending) && queued == old(queued)
      ensures !row.isolated ==> isolated && pending == row.list + [IsolationCommand(true)] && row' == Row(pending, true)
      ensures !row.isolated ==> queued == old(queued) + [IsolationCommand(true)]
      ensures old(InOrder()) && row.list == old(pending) ==> InOrder()
    {
      row' := row;
      if !row.isolated {
        isolated := true;
        Store(row.list, IsolationCommand(true));
        row' := Row(pending, true);
      }
    }

    method RequestRestore(items: map<string, ItemStatus>, q: string) returns (items': map<string, ItemStatus>, r: Outcome)
      modifies this`pending, this`queued
      ensures if q !in items then r == Refused(404) else if items[q] == Restored then r == Refused(409) else r == Granted
      ensures r == Granted ==> items' == items[q := RestoreRequested]
      ensures r != Granted ==> items' == items
      ensures var added := if r == Granted then [RestoreCommand(q)] else [];
        pending == old(pending) + added && queued == old(queued) + added
      ensures old(InOrder()) ==> InOrder()
    {
      items' := items;
      if q !in items {
        return items, Refused(404);
      }
      if items[q] == Restored {
        return items, Refused(409);
      }
      Store(pending, RestoreCommand(q));
      items', r := items[q := RestoreRequested], Granted;
    }

    /** `applied` says whether a server action found its value; a failing dispatch is rolled back. */
    method Dispatch(actions: map<int, Action>, id: int, kind: string, params: Command, applied: bool)
      returns (actions': map<int, Action>, r: Outcome)
      requires id !in actions
      modifies this`pending, this`queued
      ensures kind in AGENT_ACTIONS ==> r == Granted && actions' == actions[id := Action(kind, Queued, None)]
      ensures var added := if kind in AGENT_ACTIONS then [ActionCommand(AGENT_ACTIONS[kind], params, id)] else [];
        pending == old(pending) + added && queued == old(queued) + added
      ensures kind in SERVER_ACTIONS && applied ==> r == Granted && actions' == actions[id := Action(kind, Completed, None)]
      ensures kind !in AGENT_ACTIONS && !(kind in SERVER_ACTIONS && applied) ==> r == Refused(400) && actions' == actions
      ensures old(InOrder()) ==> InOrder()
    {
      actions' := actions;
      if kind !in AGENT_ACTIONS && kind !in SERVER_ACTIONS {
        return actions, Refused(400);
      }
      var action := Action(kind, Queued, None);
      if kind in SERVER_ACTIONS {
        if !applied {
          return actions, Refused(400);
        }
        action := action.(status := Completed);
      } else {
        Store(pending, ActionCommand(AGENT_ACTIONS[kind], params, id));
      }
      actions', r := actions[id := action], Granted;
    }

    /** The check-in hands out the whole list and empties it. */
    method Checkin() returns (commands: seq<Command>)
      modifies this`pending, this`handed
      ensures commands == old(pending) && pending == [] && handed == old(handed) + [commands]
      ensures old(InOrder()) ==> InOrder()
    {
      commands := pending;
      pending := [];
      handed := handed + [commands];
      assert handed[..|handed| - 1] == old(handed);
    }
  }
}
