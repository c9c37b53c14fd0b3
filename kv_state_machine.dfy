/** The in-memory key-value state machine the Raft library drives: a map from
    key to value that committed entries update and reads consult.  The JSON
    decoding of an entry's command and the dynamic type of a read query are
    given as datatypes. */
module KvStateMachine {

  datatype Option<T> = None | Some(value: T)

  /** `SetRequest{Key, Value}` */
  datatype SetRequest = SetRequest(key: string, value: string)

  /** `OpenRaftRequest{Set *SetRequest}`: `Set` is nil when the JSON has no `Set` field (or it is null). */
  datatype OpenRaftRequest = OpenRaftRequest(setCmd: Option<SetRequest>)

  /** What `json.Unmarshal(entry.Cmd, &req)` yields: an error, or the decoded request. */
  datatype Command = Undecodable | Decoded(request: OpenRaftRequest)

  /** `sm.Entry`: the log index and the command bytes, already decoded. */
  datatype Entry = Entry(index: nat, cmd: Command)

  /** `(sm.Result, error)` returned by `Update`. */
  datatype UpdateResult = Applied(value: nat) | DecodeError

  /** The `interface{}` query of `Lookup`: a string key or anything else. */
  datatype Query = StrQuery(key: string) | OtherQuery

  /** The map after applying one command: a decoded `Set` writes its key and
      nothing else; every other command leaves the map as it was. */
  function NextData(data: map<string, string>, cmd: Command): (d: map<string, string>)
    ensures (cmd.Undecodable? || cmd.request.setCmd.None?) ==> d == data
    ensures cmd.Decoded? && cmd.request.setCmd.Some? ==>
              var s := cmd.request.setCmd.value;
              && s.key in d && d[s.key] == s.value
              && d.Keys == data.Keys + {s.key}
              && (forall k :: k in data && k != s.key ==> d[k] == data[k])
  {
    match cmd
    case Undecodable => data
    case Decoded(req) =>
      match req.setCmd
      case Some(s) => data[s.key := s.value]
      case None => data
  }

  /** The map after applying a log of entries in order. */
  function ApplyLog(data: map<string, string>, entries: seq<Entry>): map<string, string> {
    if entries == [] then data
    else NextData(ApplyLog(data, entries[..|entries| - 1]), entries[|entries| - 1].cmd)
  }

  /** The value of the last decoded `Set` for `key` in `entries`, if any. */
  function LastSet(entries: seq<Entry>, key: string): Option<string> {
    if entries == [] then None
    else
      var cmd := entries[|entries| - 1].cmd;
      if cmd.Decoded? && cmd.request.setCmd.Some? && cmd.request.setCmd.value.key == key
      then Some(cmd.request.setCmd.value.value)
      else LastSet(entries[..|entries| - 1], key)
  }

  /** Last write wins: after any log, a key maps to the value of its last
      `Set`, or to what it mapped to before when the log never sets it. */
  lemma {:induction false} ApplyLogLastWriteWins(data: map<string, string>, entries: seq<Entry>, key: string)
    ensures LastSet(entries, key).Some? ==>
              key in ApplyLog(data, entries) && ApplyLog(data, entries)[key] == LastSet(entries, key).value
    ensures LastSet(entries, key).None? ==>
              (key in ApplyLog(data, entries) <==> key in data) &&
              (key in data ==> ApplyLog(data, entries)[key] == data[key])
  {
    if entries != [] {
      ApplyLogLastWriteWins(data, entries[..|entries| - 1], key);
    }
  }

  class KVStateMachine {
    var data: map<string, string>

    /** `NewKVStateMachine`: the shard and replica ids are not used. */
    constructor (clusterID: nat, nodeID: nat)
      ensures data == map[]
    {
      data := map[];
    }

    /** `Update`: decode the command, apply a `Set`, and report the entry's
        index when something was written, 0 when nothing was, or the decode
        error. */
    method Update(entry: Entry) returns (r: UpdateResult)
      modifies this
      ensures data == NextData(old(data), entry.cmd)
      ensures entry.cmd.Undecodable? ==> r == DecodeError
      ensures entry.cmd.Decoded? && entry.cmd.request.setCmd.Some? ==> r == Applied(entry.index)
      ensures entry.cmd.Decoded? && entry.cmd.request.setCmd.None? ==> r == Applied(0)
    {
      match entry.cmd
      case Undecodable =>
        return DecodeError;
      case Decoded(req) =>
        if req.setCmd.Some? {
          data := data[req.setCmd.value.key := req.setCmd.value.value];
          return Applied(entry.index);
        }
        return Applied(0);
    }

    /** `Lookup`: the mapped value of a string key, Go's zero value `""` for a
        missing key, and `""` for a query that is not a string. */
    method Lookup(query: Query) returns (v: string)
      ensures query.StrQuery? && query.key in data ==> v == data[query.key]
      ensures query.StrQuery? && query.key !in data ==> v == ""
      ensures query.OtherQuery? ==> v == ""
    {
      match query
      case OtherQuery =>
        return "";
      case StrQuery(key) =>
        v := if key in data then data[key] else "";
    }
  }

  /** A fresh state machine answers every query with `""`. */
  method LookupOnFreshMachine(clusterID: nat, nodeID: nat, query: Query) returns (v: string)
    ensures v == ""
  {
    var machine := new KVStateMachine(clusterID, nodeID);
    v := machine.Lookup(query);
  }

  /** Two `Set`s of one key on a fresh machine: both report their entry
      index, and a read of the key returns the second value. */
  method SetTwiceThenLookup(key: string, v1: string, v2: string, index1: nat, index2: nat)
    returns (r1: UpdateResult, r2: UpdateResult, v: string)
    ensures r1 == Applied(index1) && r2 == Applied(index2)
    ensures v == v2
  {
    var machine := new KVStateMachine(0, 0);
    r1 := machine.Update(Entry(index1, Decoded(OpenRaftRequest(Some(SetRequest(key, v1))))));
    r2 := machine.Update(Entry(index2, Decoded(OpenRaftRequest(Some(SetRequest(key, v2))))));
    v := machine.Lookup(StrQuery(key));
  }
}
