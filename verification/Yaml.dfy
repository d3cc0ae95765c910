/** YAML trees, as far as the configuration reads and writes them. */
module Yaml {
  import opened Common
  import opened Decimals

  datatype KeyValue = KeyValue(key: string, value: Node)

  datatype Node = Null | Scalar(text: string) | Sequence(items: seq<Node>) | Map(entries: seq<KeyValue>)

  /** The value of the first entry with a key. */
  function Get(entries: seq<KeyValue>, key: string): Option<Node> {
    if entries == [] then None
    else if entries[0].key == key then Some(entries[0].value)
    else Get(entries[1..], key)
  }

  /** node[key]: a scalar has no subscript, and any other node but a map has no such value. */
  datatype Access = Throws | Undefined | Defined(node: Node)

  function Field(n: Node, key: string): Access {
    match n
    case Scalar(_) => Throws
    case Map(entries) => (match Get(entries, key) case Some(v) => Defined(v) case None => Undefined)
    case _ => Undefined
  }

  /** node.size() */
  function Size(n: Node): nat {
    match n
    case Sequence(items) => |items|
    case Map(entries) => |entries|
    case _ => 0
  }

  /** node[i]: a map is asked for the key i, and a value that is not there reads like null. */
  function Child(n: Node, i: nat): Node
    requires i < Size(n)
  {
    match n
    case Sequence(items) => items[i]
    case Map(entries) => match Get(entries, Decimal(i)) case Some(v) => v case None => Null
  }

  lemma {:induction false} GetConcat(a: seq<KeyValue>, b: seq<KeyValue>, key: string)
    ensures Get(a + b, key) == if Get(a, key).Some? then Get(a, key) else Get(b, key)
  {
    if a == [] {
      assert a + b == b;
    } else {
      assert (a + b)[1..] == a[1..] + b;
      GetConcat(a[1..], b, key);
    }
  }

  lemma GetAmongFour(
    a: seq<KeyValue>, b: seq<KeyValue>, c: seq<KeyValue>, d: seq<KeyValue>, key: string)
    ensures Get(a + b + c + d, key) ==
            if Get(a, key).Some? then Get(a, key)
            else if Get(b, key).Some? then Get(b, key)
            else if Get(c, key).Some? then Get(c, key)
            else Get(d, key)
  {
    hide Get;
    GetConcat(a, b, key);
    GetConcat(a + b, c, key);
    GetConcat(a + b + c, d, key);
  }

  /** Of several entries with a key, the first one counts. */
  lemma {:induction false} GetIsFirst(entries: seq<KeyValue>, key: string, v: Node)
    ensures Get(entries, key) == Some(v) <==>
            exists i :: 0 <= i < |entries| && entries[i] == KeyValue(key, v) &&
                        forall j :: 0 <= j < i ==> entries[j].key != key
  {
    if entries != [] && entries[0].key != key {
      var rest := entries[1..];
      GetIsFirst(rest, key, v);
      if Get(rest, key) == Some(v) {
        var i :| 0 <= i < |rest| && rest[i] == KeyValue(key, v) && forall j :: 0 <= j < i ==> rest[j].key != key;
        assert entries[i + 1] == KeyValue(key, v) && forall j :: 0 < j < i + 1 ==> entries[j] == rest[j - 1];
      }
      if i :| 0 <= i < |entries| && entries[i] == KeyValue(key, v) && forall j :: 0 <= j < i ==> entries[j].key != key {
        assert rest[i - 1] == KeyValue(key, v) && forall j :: 0 <= j < i - 1 ==> rest[j] == entries[j + 1];
      }
    } else if entries != [] {
      assert entries[0] == KeyValue(key, v) <==> entries[0].value == v;
    }
  }

  /**
   * Only a map has fields, and asking a scalar for one fails; an element of a map is asked for by its index as text.
   */
  lemma AccessExactly(n: Node, key: string, i: nat)
    ensures Field(n, key).Throws? <==> n.Scalar?
    ensures Field(n, key).Defined? <==> n.Map? && Get(n.entries, key).Some?
    ensures Field(n, key).Defined? ==> Field(n, key).node == Get(n.entries, key).value
    ensures i < Size(n) ==> n.Sequence? || n.Map?
    ensures i < Size(n) && n.Sequence? ==> Child(n, i) == n.items[i]
    ensures i < Size(n) && n.Map? ==>
              Child(n, i) == if Get(n.entries, Decimal(i)).Some? then Get(n.entries, Decimal(i)).value else Null
  {
    hide Get;
  }
}
