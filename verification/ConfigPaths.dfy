/** Flattening a YAML tree into dotted names. */
module ConfigPaths {
  import opened Alphabets
  import opened Common
  import opened Yaml

  /** The characters a configuration name may have. */
  predicate AllowedChar(c: char) {
    'a' <= c <= 'z' || '0' <= c <= '9' || c == '.' || c == '_'
  }

  predicate Allowed(name: string) {
    forall i :: 0 <= i < |name| ==> AllowedChar(name[i])
  }

  /** The alphabet of names, written out. */
  const NAME_CHARS := LOWER_CASE + DIGITS + "._"

  lemma AllowedExactly(name: string)
    ensures Allowed(name) <==> forall c :: c in name ==> c in NAME_CHARS
  {
    forall c ensures AllowedChar(c) <==> c in NAME_CHARS {
      CharExactly(c);
    }
    hide AllowedChar, NAME_CHARS;
  }

  lemma CharExactly(c: char)
    ensures AllowedChar(c) <==> c in NAME_CHARS
  {
    LowerExactly(c);
    DigitExactly(c);
    hide LOWER_CASE, DIGITS;
    assert c in NAME_CHARS <==> c in LOWER_CASE || c in DIGITS || c in "._";
  }

  /** tolower, character by character. */
  function Lower(s: string): (r: string) {
    seq(|s|, i requires 0 <= i < |s| => if 'A' <= s[i] <= 'Z' then s[i] + 32 as char else s[i])
  }

  /** Lower-casing an allowed name changes nothing, for upper-case letters are not allowed. */
  lemma LowerIsIdentity(name: string)
    requires Allowed(name)
    ensures Lower(name) == name
  {
    assert forall i :: 0 <= i < |name| ==> AllowedChar(name[i]);
  }

  /** The lower-case letters for the upper-case ones, and every other character for itself. */
  lemma LowerLetters(s: string, i: nat)
    requires i < |s|
    ensures |Lower(s)| == |s|
    ensures forall k :: 0 <= k < 26 && s[i] == UPPER_CASE[k] ==> Lower(s)[i] == LOWER_CASE[k]
    ensures s[i] !in UPPER_CASE ==> Lower(s)[i] == s[i]
  {
    UpperExactly(s[i]);
    forall k | 0 <= k < 26 && s[i] == UPPER_CASE[k]
      ensures Lower(s)[i] == LOWER_CASE[k]
    {
      UpperAt(k);
      LowerAt(k);
    }
  }

  function Join(prefix: string, key: string): string {
    if prefix == "" then key else prefix + "." + key
  }

  /** The listed nodes below a prefix, each with its dotted name. */
  function Flatten(prefix: string, node: Node): seq<(string, Node)>
    decreases node, 1
  {
    if !Allowed(prefix) then []
    else [(prefix, node)] + if node.Map? then FlattenEntries(prefix, node.entries) else []
  }

  function FlattenEntries(prefix: string, entries: seq<KeyValue>): seq<(string, Node)>
    decreases entries, 0
  {
    if entries == [] then []
    else Flatten(Join(prefix, entries[0].key), entries[0].value) + FlattenEntries(prefix, entries[1..])
  }

  /** The list that the recursion appends to. */
  class NodeList {
    var items: seq<(string, Node)>

    constructor ()
      ensures items == []
    {
      items := [];
    }
  }

  /** ListAllMember: it recurses into maps and appends to the caller's list. */
  method ListAllMember(prefix: string, node: Node, output: NodeList)
    modifies output
    ensures output.items == old(output.items) + Flatten(prefix, node)
    decreases node
  {
    FlattenIs(prefix, node, output.items);
    hide Flatten, FlattenEntries;
    if !Allowed(prefix) {
      return;
    }
    output.items := output.items + [(prefix, node)];
    if node.Map? {
      ghost var before := output.items;
      FlattenNone(prefix, node.entries);
      for k := 0 to |node.entries|
        invariant output.items == before + FlattenEntries(prefix, node.entries[..k])
      {
        var e := node.entries[k];
        FlattenSnoc(prefix, node.entries, k);
        Associates(before, FlattenEntries(prefix, node.entries[..k]), Flatten(Join(prefix, e.key), e.value));
        ListAllMember(if prefix == "" then e.key else prefix + "." + e.key, e.value, output);
      }
      assert node.entries[..|node.entries|] == node.entries;
    }
  }

  lemma FlattenIs(prefix: string, node: Node, before: seq<(string, Node)>)
    ensures before + Flatten(prefix, node) ==
            if !Allowed(prefix) then before
            else if node.Map? then before + [(prefix, node)] + FlattenEntries(prefix, node.entries)
            else before + [(prefix, node)]
  {
    hide FlattenEntries;
  }

  lemma FlattenNone(prefix: string, entries: seq<KeyValue>)
    ensures FlattenEntries(prefix, entries[..0]) == []
  {}

  lemma FlattenFirst(prefix: string, entries: seq<KeyValue>)
    requires entries != []
    ensures FlattenEntries(prefix, entries) ==
            Flatten(Join(prefix, entries[0].key), entries[0].value) + FlattenEntries(prefix, entries[1..])
  {
    hide Flatten, Join;
  }

  lemma {:induction false} FlattenConcat(prefix: string, a: seq<KeyValue>, b: seq<KeyValue>)
    ensures FlattenEntries(prefix, a + b) == FlattenEntries(prefix, a) + FlattenEntries(prefix, b)
    decreases |a|
  {
    if a == [] {
      FlattenNone(prefix, a);
      assert a + b == b;
    } else {
      hide *;
      assert (a + b)[0] == a[0] && (a + b)[1..] == a[1..] + b;
      FlattenFirst(prefix, a);
      FlattenFirst(prefix, a + b);
      FlattenConcat(prefix, a[1..], b);
      var first := Flatten(Join(prefix, a[0].key), a[0].value);
      Associates(first, FlattenEntries(prefix, a[1..]), FlattenEntries(prefix, b));
    }
  }

  lemma FlattenSnoc(prefix: string, entries: seq<KeyValue>, k: nat)
    requires k < |entries|
    ensures FlattenEntries(prefix, entries[..k + 1]) ==
            FlattenEntries(prefix, entries[..k]) + Flatten(Join(prefix, entries[k].key), entries[k].value)
  {
    assert entries[..k + 1] == entries[..k] + [entries[k]];
    FlattenConcat(prefix, entries[..k], [entries[k]]);
  }

  // ---------------------------------------------------------------------
  // Flattening is exact

  /** Every map entry of a tree, in preorder, with the keys that lead to it. */
  function Preorder(keys: seq<string>, node: Node): seq<(seq<string>, Node)>
    decreases node, 1
  {
    [(keys, node)] + if node.Map? then PreorderEntries(keys, node.entries) else []
  }

  function PreorderEntries(keys: seq<string>, entries: seq<KeyValue>): seq<(seq<string>, Node)>
    decreases entries, 0
  {
    if entries == [] then []
    else Preorder(keys + [entries[0].key], entries[0].value) + PreorderEntries(keys, entries[1..])
  }

  /** The dotted name of a list of keys. */
  function NameOf(keys: seq<string>): string {
    if keys == [] then "" else Join(NameOf(keys[..|keys| - 1]), keys[|keys| - 1])
  }

  predicate Clean(keys: seq<string>) {
    forall k :: k in keys ==> Allowed(k)
  }

  /** The entries all of whose keys are allowed, under their dotted names. */
  function Select(ps: seq<(seq<string>, Node)>): seq<(string, Node)> {
    if ps == [] then []
    else (if Clean(ps[0].0) then [(NameOf(ps[0].0), ps[0].1)] else []) + Select(ps[1..])
  }

  lemma {:induction false} SelectConcat(a: seq<(seq<string>, Node)>, b: seq<(seq<string>, Node)>)
    ensures Select(a + b) == Select(a) + Select(b)
  {
    if a == [] {
      assert a + b == b;
    } else {
      assert (a + b)[0] == a[0] && (a + b)[1..] == a[1..] + b;
      SelectConcat(a[1..], b);
    }
  }

  lemma JoinAllowed(prefix: string, key: string)
    ensures Allowed(Join(prefix, key)) <==> Allowed(prefix) && Allowed(key)
  {
    if prefix != "" {
      var s := prefix + "." + key;
      assert forall i :: 0 <= i < |prefix| ==> s[i] == prefix[i];
      assert forall i :: 0 <= i < |key| ==> s[|prefix| + 1 + i] == key[i];
    }
  }

  lemma NameSnoc(keys: seq<string>, key: string)
    ensures NameOf(keys + [key]) == Join(NameOf(keys), key)
    ensures Clean(keys + [key]) <==> Clean(keys) && Allowed(key)
  {
    var all := keys + [key];
    assert all[..|all| - 1] == keys;
    assert forall k :: k in all <==> k in keys || k == key;
  }

  /** A dotted name is allowed exactly if all its keys are. */
  lemma {:induction false} NameAllowed(keys: seq<string>)
    ensures Allowed(NameOf(keys)) <==> Clean(keys)
  {
    if keys != [] {
      var front, last := keys[..|keys| - 1], keys[|keys| - 1];
      assert keys == front + [last];
      NameAllowed(front);
      NameSnoc(front, last);
      JoinAllowed(NameOf(front), last);
    }
  }

  /** Below a key that is not allowed nothing is selected. */
  lemma {:induction false} UncleanTree(keys: seq<string>, node: Node)
    requires !Clean(keys)
    ensures Select(Preorder(keys, node)) == []
    decreases node, 1
  {
    if node.Map? {
      UncleanEntries(keys, node.entries);
    }
    SelectConcat([(keys, node)], if node.Map? then PreorderEntries(keys, node.entries) else []);
  }

  lemma {:induction false} UncleanEntries(keys: seq<string>, entries: seq<KeyValue>)
    requires !Clean(keys)
    ensures Select(PreorderEntries(keys, entries)) == []
    decreases entries, 0
  {
    if entries != [] {
      NameSnoc(keys, entries[0].key);
      UncleanTree(keys + [entries[0].key], entries[0].value);
      UncleanEntries(keys, entries[1..]);
      SelectConcat(Preorder(keys + [entries[0].key], entries[0].value), PreorderEntries(keys, entries[1..]));
    }
  }

  lemma {:induction false} FlattenTree(keys: seq<string>, node: Node)
    requires Clean(keys)
    ensures Flatten(NameOf(keys), node) == Select(Preorder(keys, node))
    decreases node, 1
  {
    NameAllowed(keys);
    var below := if node.Map? then PreorderEntries(keys, node.entries) else [];
    SelectConcat([(keys, node)], below);
    assert Select([(keys, node)]) == [(NameOf(keys), node)];
    if node.Map? {
      FlattenBelow(keys, node.entries);
    }
  }

  lemma {:induction false} FlattenBelow(keys: seq<string>, entries: seq<KeyValue>)
    requires Clean(keys)
    ensures FlattenEntries(NameOf(keys), entries) == Select(PreorderEntries(keys, entries))
    decreases entries, 0
  {
    if entries != [] {
      var inner := keys + [entries[0].key];
      NameSnoc(keys, entries[0].key);
      FlattenBelow(keys, entries[1..]);
      SelectConcat(Preorder(inner, entries[0].value), PreorderEntries(keys, entries[1..]));
      NameAllowed(inner);
      if Clean(inner) {
        FlattenTree(inner, entries[0].value);
      } else {
        UncleanTree(inner, entries[0].value);
      }
    }
  }

  /**
   Flattening is exact: it lists, in preorder and under their dotted names, just
   the nodes all of whose keys use the allowed alphabet.
   */
  lemma FlattenExactly(root: Node)
    ensures Flatten("", root) == Select(Preorder([], root))
  {
    FlattenTree([], root);
  }

  // ---------------------------------------------------------------------
  // Names are distinct

  /** Keys are not empty, have no dot, and differ from their siblings. */
  predicate WellKeyed(node: Node)
    decreases node, 1
  {
    node.Map? ==> WellKeyedEntries(node.entries)
  }

  predicate WellKeyedEntries(entries: seq<KeyValue>)
    decreases entries, 0
  {
    entries != [] ==>
      && entries[0].key != "" && '.' !in entries[0].key
      && (forall i :: 1 <= i < |entries| ==> entries[i].key != entries[0].key)
      && WellKeyed(entries[0].value) && WellKeyedEntries(entries[1..])
  }

  predicate Distinct(ps: seq<(string, Node)>) {
    forall i, j :: 0 <= i < j < |ps| ==> ps[i].0 != ps[j].0
  }

  /** name is prefix, or goes on after it with a dot. */
  predicate Under(prefix: string, name: string) {
    name == prefix || prefix + "." <= name
  }

  lemma UnderJoin(prefix: string, key: string, name: string)
    requires prefix != "" && Under(Join(prefix, key), name)
    ensures Under(prefix, name) && name != prefix
  {
    var c := prefix + "." + key;
    assert c <= name;
    assert prefix + "." == c[..|prefix| + 1] == name[..|prefix| + 1];
  }

  /** Everything listed below a non-empty name is under it. */
  lemma {:induction false} FlattenUnder(prefix: string, node: Node, i: nat)
    requires prefix != "" && i < |Flatten(prefix, node)|
    ensures Under(prefix, Flatten(prefix, node)[i].0)
    decreases node, 1
  {
    if i > 0 {
      FlattenEntriesUnder(prefix, node.entries, i - 1);
    }
  }

  lemma {:induction false} FlattenEntriesUnder(prefix: string, entries: seq<KeyValue>, i: nat)
    requires prefix != "" && i < |FlattenEntries(prefix, entries)|
    ensures Under(prefix, FlattenEntries(prefix, entries)[i].0) && FlattenEntries(prefix, entries)[i].0 != prefix
    decreases entries, 0
  {
    var first := Flatten(Join(prefix, entries[0].key), entries[0].value);
    if i < |first| {
      FlattenUnder(Join(prefix, entries[0].key), entries[0].value, i);
      UnderJoin(prefix, entries[0].key, first[i].0);
    } else {
      FlattenEntriesUnder(prefix, entries[1..], i - |first|);
    }
  }

  /** What follows the prefix in a listed name starts with one of the keys. */
  function After(prefix: string, name: string): string {
    if prefix == "" then name else if |name| <= |prefix| then "" else name[|prefix| + 1..]
  }

  function FirstSegment(s: string): string {
    if s == "" || s[0] == '.' then "" else [s[0]] + FirstSegment(s[1..])
  }

  lemma {:induction false} SegmentIs(key: string, s: string)
    requires '.' !in key && Under(key, s)
    ensures FirstSegment(s) == key
  {
    if key != "" {
      var rest := key[1..];
      assert key == [key[0]] + rest;
      assert s[0] == key[0];
      assert Under(rest, s[1..]) by {
        if s != key {
          assert (key + ".")[1..] == rest + ".";
        }
      }
      SegmentIs(rest, s[1..]);
    }
  }

  lemma SegmentOfJoin(prefix: string, key: string, name: string)
    requires '.' !in key && Under(Join(prefix, key), name)
    ensures FirstSegment(After(prefix, name)) == key
  {
    var c := Join(prefix, key);
    if prefix != "" {
      assert c[|prefix| + 1..] == key;
      if name != c {
        assert (c + ".")[|prefix| + 1..] == key + ".";
        assert name[..|c| + 1] == c + ".";
        assert name[|prefix| + 1..][..|key| + 1] == key + ".";
      }
    }
    assert Under(key, After(prefix, name));
    SegmentIs(key, After(prefix, name));
  }

  /** Each name listed for some entries has one of their keys after the prefix. */
  lemma {:induction false} EntriesSegment(prefix: string, entries: seq<KeyValue>, i: nat) returns (k: nat)
    requires WellKeyedEntries(entries) && i < |FlattenEntries(prefix, entries)|
    ensures k < |entries| && FirstSegment(After(prefix, FlattenEntries(prefix, entries)[i].0)) == entries[k].key
    decreases entries
  {
    hide Flatten, FirstSegment, After;
    var key := entries[0].key;
    var first := Flatten(Join(prefix, key), entries[0].value);
    if i < |first| {
      FlattenUnder(Join(prefix, key), entries[0].value, i);
      SegmentOfJoin(prefix, key, first[i].0);
      k := 0;
    } else {
      k := EntriesSegment(prefix, entries[1..], i - |first|);
      k := k + 1;
    }
  }

  lemma DistinctConcat(a: seq<(string, Node)>, b: seq<(string, Node)>)
    requires Distinct(a) && Distinct(b)
    requires forall i, j :: 0 <= i < |a| && 0 <= j < |b| ==> a[i].0 != b[j].0
    ensures Distinct(a + b)
  {}

  /** With well-formed keys no name is listed twice. */
  lemma {:induction false} FlattenDistinct(prefix: string, node: Node)
    requires WellKeyed(node)
    ensures Distinct(Flatten(prefix, node))
    decreases node, 1
  {
    if node.Map? && Allowed(prefix) {
      var below := FlattenEntries(prefix, node.entries);
      EntriesDistinct(prefix, node.entries);
      forall j | 0 <= j < |below|
        ensures below[j].0 != prefix
      {
        NotPrefix(prefix, node.entries, j);
      }
      DistinctConcat([(prefix, node)], below);
    }
  }

  lemma NotPrefix(prefix: string, entries: seq<KeyValue>, j: nat)
    requires WellKeyedEntries(entries) && j < |FlattenEntries(prefix, entries)|
    ensures FlattenEntries(prefix, entries)[j].0 != prefix
  {
    if prefix != "" {
      FlattenEntriesUnder(prefix, entries, j);
    } else {
      var k := EntriesSegment(prefix, entries, j);
      KeyNotEmpty(entries, k);
    }
  }

  lemma {:induction false} KeyNotEmpty(entries: seq<KeyValue>, k: nat)
    requires WellKeyedEntries(entries) && k < |entries|
    ensures entries[k].key != ""
    decreases |entries|
  {
    if k > 0 {
      KeyNotEmpty(entries[1..], k - 1);
    }
  }

  lemma {:induction false} EntriesDistinct(prefix: string, entries: seq<KeyValue>)
    requires WellKeyedEntries(entries)
    ensures Distinct(FlattenEntries(prefix, entries))
    decreases entries, 0
  {
    if entries != [] {
      var key := entries[0].key;
      var a, b := Flatten(Join(prefix, key), entries[0].value), FlattenEntries(prefix, entries[1..]);
      FlattenDistinct(Join(prefix, key), entries[0].value);
      EntriesDistinct(prefix, entries[1..]);
      forall i, j | 0 <= i < |a| && 0 <= j < |b|
        ensures a[i].0 != b[j].0
      {
        FlattenUnder(Join(prefix, key), entries[0].value, i);
        SegmentOfJoin(prefix, key, a[i].0);
        var k := EntriesSegment(prefix, entries[1..], j);
        assert entries[1..][k].key == entries[k + 1].key;
      }
      DistinctConcat(a, b);
    }
  }

  /** A small tree, listed: parents before children, siblings in order, keys joined by a dot. */
  lemma SmallTree(a: string, b: string, c: string, v: Node, w: Node)
    requires Allowed(a) && Allowed(b) && Allowed(c) && a != "" && !v.Map? && !w.Map?
    ensures var below := Map([KeyValue(b, v)]);
            var root := Map([KeyValue(a, below), KeyValue(c, w)]);
            Flatten("", root) == [("", root), (a, below), (a + "." + b, v), (c, w)]
  {
    var below := Map([KeyValue(b, v)]);
    var root := Map([KeyValue(a, below), KeyValue(c, w)]);
    JoinAllowed(a, b);
    FlattenSingle(a, b, v);
    FlattenSingle("", c, w);
    hide Allowed;
    assert FlattenEntries("", root.entries) == Flatten(a, below) + FlattenEntries("", root.entries[1..]);
    assert root.entries[1..] == [KeyValue(c, w)];
    assert Flatten(a, below) == [(a, below)] + FlattenEntries(a, [KeyValue(b, v)]);
  }

  lemma FlattenSingle(prefix: string, key: string, v: Node)
    requires !v.Map? && Allowed(Join(prefix, key))
    ensures FlattenEntries(prefix, [KeyValue(key, v)]) == [(Join(prefix, key), v)]
  {
    assert Flatten(Join(prefix, key), v) == [(Join(prefix, key), v)] + [];
    assert FlattenEntries(prefix, [KeyValue(key, v)]) == Flatten(Join(prefix, key), v) + FlattenEntries(prefix, []);
  }
}
