/** What one benchmark worker sends in one iteration: the key and value it
    derives from its client id and iteration index, and the operation its
    mode selects. */
module Workload {
  import opened Format

  datatype Op = Write | Read

  /** `perform_write` posts `{"Set": {"key": key, "value": value}}` to `/write`;
      `perform_read` posts the bare key to `/read`. */
  datatype Request = WriteRequest(key: string, value: string) | ReadRequest(key: string)

  /** The outcome of matching on the mode string; `UnknownMode` is the `panic!` arm. */
  datatype Selection = Selected(op: Op) | UnknownMode

  /** `format!("key_{}_{}", client_id, i)` */
  function Key(clientId: nat, i: nat): string {
    Tagged("key_", clientId, i)
  }

  /** `format!("value_{}_{}", client_id, i)` */
  function Value(clientId: nat, i: nat): string {
    Tagged("value_", clientId, i)
  }

  /** A key reads back as `key_`, the client id and the iteration index. */
  lemma KeyEncodes(clientId: nat, i: nat)
    ensures Encodes("key_", Key(clientId, i), clientId, i)
  {
    TaggedEncodes("key_", clientId, i);
  }

  /** A value reads back as `value_`, the client id and the iteration index. */
  lemma ValueEncodes(clientId: nat, i: nat)
    ensures Encodes("value_", Value(clientId, i), clientId, i)
  {
    TaggedEncodes("value_", clientId, i);
  }

  /** Distinct (client, iteration) pairs never share a key. */
  lemma KeyInjective(c1: nat, i1: nat, c2: nat, i2: nat)
    requires Key(c1, i1) == Key(c2, i2)
    ensures c1 == c2 && i1 == i2
  {
    TaggedInjective("key_", c1, i1, c2, i2);
  }

  lemma ValueInjective(c1: nat, i1: nat, c2: nat, i2: nat)
    requires Value(c1, i1) == Value(c2, i2)
    ensures c1 == c2 && i1 == i2
  {
    TaggedInjective("value_", c1, i1, c2, i2);
  }

  predicate KnownMode(mode: string) {
    mode == "write" || mode == "read" || mode == "mixed"
  }

  /** The `match test_type.as_str()`.  `drawBelowRatio` stands for
      `rand::random::<f64>() < write_ratio` and is consulted only in mixed mode. */
  function SelectOp(mode: string, drawBelowRatio: bool): (s: Selection)
    ensures s.UnknownMode? <==> !KnownMode(mode)
    ensures s == Selected(Write) <==> mode == "write" || (mode == "mixed" && drawBelowRatio)
    ensures s == Selected(Read) <==> mode == "read" || (mode == "mixed" && !drawBelowRatio)
  {
    if mode == "write" then Selected(Write)
    else if mode == "read" then Selected(Read)
    else if mode == "mixed" then (if drawBelowRatio then Selected(Write) else Selected(Read))
    else UnknownMode
  }

  /** The request issued in iteration `i` of client `clientId` for operation `op`. */
  function RequestFor(clientId: nat, i: nat, op: Op): (r: Request)
    ensures r.key == Key(clientId, i)
    ensures r.WriteRequest? <==> op == Write
    ensures r.WriteRequest? ==> r.value == Value(clientId, i)
  {
    match op
    case Write => WriteRequest(Key(clientId, i), Value(clientId, i))
    case Read => ReadRequest(Key(clientId, i))
  }

  /** Requests of different iterations carry different keys, whatever the mode. */
  lemma RequestKeysDistinct(c1: nat, i1: nat, op1: Op, c2: nat, i2: nat, op2: Op)
    requires (c1, i1) != (c2, i2)
    ensures RequestFor(c1, i1, op1).key != RequestFor(c2, i2, op2).key
  {
    if RequestFor(c1, i1, op1).key == RequestFor(c2, i2, op2).key {
      KeyInjective(c1, i1, c2, i2);
    }
  }
}
