/** The registry of configuration variables, and loading it from a YAML tree. */
module ConfigStore {
  import opened Common
  import opened ConfigPaths
  import opened ConfigVars
  import opened Yaml

  /** What loading a list of entries does to the variable of one name. */
  ghost function Load<T, CB>(
    name: string, eq: (T, T) -> bool, conv: Node -> Option<T>, entries: seq<(string, Node)>, s: VarState<T, CB>)
    : VarState<T, CB>
  {
    if entries == [] then s
    else
      var before := Load(name, eq, conv, entries[..|entries| - 1], s);
      var e := entries[|entries| - 1];
      if e.0 != "" && e.0 == name then SetFrom(before, eq, conv, e.1) else before
  }

  datatype LookupResult<T, CB> = Found(v: ConfigVar<T, CB>) | WrongType | InvalidName

  /** All variables share the value type T; the type tag tells them apart. */
  class Config<T, CB> {
    var datas: map<string, ConfigVar<T, CB>>

    /** Every key is allowed, and is the name of its variable. */
    ghost predicate Valid()
      reads this
    {
      forall n :: n in datas ==> Allowed(n) && datas[n].name == n
    }

    /** The type bound to each name. */
    ghost function Types(): map<string, string>
      reads this
    {
      map n | n in datas :: datas[n].typeName
    }

    constructor ()
      ensures Valid() && datas == map[]
    {
      datas := map[];
    }

    /** The variable of a name, if it has the type asked for. */
    function Lookup(name: string, typeName: string): (v: ConfigVar?<T, CB>)
      reads this
    {
      if name in datas && datas[name].typeName == typeName then datas[name] else null
    }

    /** A lookup finds just what is bound, and only as what it is. */
    lemma LookupFinds(name: string, typeName: string)
      ensures Lookup(name, typeName) != null <==> name in Types() && Types()[name] == typeName
      ensures Lookup(name, typeName) != null ==> Lookup(name, typeName) == datas[name]
      ensures LookupBase(name) != null <==> name in Types()
      ensures LookupBase(name) != null ==> LookupBase(name) == datas[name]
    {}

    /** The variable of a name; it is made, with a default value, if there is none. */
    method LookupDefault(name: string, typeName: string, eq: (T, T) -> bool, conv: Node -> Option<T>, defaultValue: T)
      returns (r: LookupResult<T, CB>)
      requires Valid()
      modifies this
      ensures Valid() && Types() == Register(old(Types()), name, typeName)
      ensures forall n :: n in old(datas) ==> n in datas && datas[n] == old(datas[n])
      ensures name in old(datas) ==>
                && datas == old(datas)
                && r == if datas[name].typeName == typeName then Found(datas[name]) else WrongType
      ensures name !in old(datas) && !Allowed(name) ==> datas == old(datas) && r == InvalidName
      ensures name !in old(datas) && Allowed(name) ==>
                && r.Found? && fresh(r.v) && datas == old(datas)[name := r.v]
                && r.v.name == name && r.v.typeName == typeName && r.v.eq == eq && r.v.conv == conv
                && r.v.State() == VarState(defaultValue, map[], [])
    {
      if name in datas {
        if datas[name].typeName == typeName {
          return Found(datas[name]);
        }
        return WrongType;
      }
      if !Allowed(name) {
        return InvalidName;
      }
      LowerIsIdentity(name);
      var v := new ConfigVar(name, typeName, eq, conv, defaultValue);
      datas := datas[name := v];
      r := Found(v);
    }

    function LookupBase(name: string): (v: ConfigVar?<T, CB>)
      reads this
    {
      if name in datas then datas[name] else null
    }

    /** The round of LoadFromYaml for one listed node: the variable of its name, if any, is given the node. */
    method Offer(name: string, node: Node)
      requires Valid() && Allowed(name)
      modifies datas.Values
      ensures forall n :: n in datas ==>
                datas[n].State() ==
                if name == n then SetFrom(old(datas[n].State()), datas[n].eq, datas[n].conv, node)
                else old(datas[n].State())
    {
      hide SetFrom, Allowed, Lower;
      LowerIsIdentity(name);
      var key := Lower(name);
      var v := LookupBase(key);
      assert forall n :: n in datas && n != key ==> datas[n] != v;
      if v != null {
        var _ := v.FromString(node);
      }
    }

    /**
     LoadFromYaml: every listed node is offered to the variable of its name.  No
     variable is added or removed, and each changes by itself.
     */
    method LoadFromYaml(root: Node)
      requires Valid()
      modifies datas.Values
      ensures Valid() && datas == old(datas) && Types() == old(Types())
      ensures forall n :: n in datas ==>
                datas[n].State() == Load(n, datas[n].eq, datas[n].conv, Flatten("", root), old(datas[n].State()))
    {
      hide Load, Flatten, Allowed;
      var all := new NodeList();
      ListAllMember("", root, all);
      assert all.items == Flatten("", root);
      LoadEntries(root, all.items);
    }

    /** The loop of LoadFromYaml. */
    method LoadEntries(root: Node, entries: seq<(string, Node)>)
      requires Valid() && entries == Flatten("", root)
      modifies datas.Values
      ensures forall n :: n in datas ==>
                datas[n].State() == Load(n, datas[n].eq, datas[n].conv, entries, old(datas[n].State()))
    {
      hide Load, Flatten, Allowed, ConfigVar.State;
      ghost var start := map n | n in datas :: datas[n].State();
      forall n | n in datas
        ensures Loaded(n, entries[..0], start[n])
      {
        LoadNothing(n, datas[n].eq, datas[n].conv, entries, datas[n].State());
      }
      hide Loaded;
      for i := 0 to |entries|
        invariant forall n :: n in datas ==> Loaded(n, entries[..i], start[n])
      {
        ListedAllowed(root, i);
        Round(entries, i, start);
      }
      assert entries[..|entries|] == entries;
      forall n | n in datas
        ensures datas[n].State() == Load(n, datas[n].eq, datas[n].conv, entries, start[n])
      {
        LoadedIs(n, entries, start[n]);
      }
    }

    /** The variable is as some entries leave it that was in a state before. */
    ghost predicate Loaded(n: string, entries: seq<(string, Node)>, before: VarState<T, CB>)
      requires n in datas
      reads this, datas[n]
    {
      datas[n].State() == Load(n, datas[n].eq, datas[n].conv, entries, before)
    }

    lemma LoadedIs(n: string, entries: seq<(string, Node)>, before: VarState<T, CB>)
      requires n in datas && Loaded(n, entries, before)
      ensures datas[n].State() == Load(n, datas[n].eq, datas[n].conv, entries, before)
    {}

    /** One round of the loop of LoadFromYaml. */
    method Round(entries: seq<(string, Node)>, i: nat, ghost start: map<string, VarState<T, CB>>)
      requires Valid() && i < |entries| && Allowed(entries[i].0) && datas.Keys <= start.Keys
      requires forall n :: n in datas ==> Loaded(n, entries[..i], start[n])
      modifies datas.Values
      ensures forall n :: n in datas ==> Loaded(n, entries[..i + 1], start[n])
    {
      hide Load, SetFrom, Allowed, Lower;
      forall n | n in datas
        ensures Load(n, datas[n].eq, datas[n].conv, entries[..i + 1], start[n]) ==
                if entries[i].0 != "" && entries[i].0 == n
                then SetFrom(datas[n].State(), datas[n].eq, datas[n].conv, entries[i].1)
                else datas[n].State()
      {
        LoadNext(n, datas[n].eq, datas[n].conv, entries, i, start[n]);
      }
      var key := entries[i].0;
      if key != "" {
        Offer(key, entries[i].1);
      }
    }
  }

  lemma LoadNothing<T, CB>(
    name: string, eq: (T, T) -> bool, conv: Node -> Option<T>, entries: seq<(string, Node)>, s: VarState<T, CB>)
    ensures Load(name, eq, conv, entries[..0], s) == s
  {}

  /** How a load goes on with one more entry. */
  lemma LoadNext<T, CB>(
    name: string, eq: (T, T) -> bool, conv: Node -> Option<T>, entries: seq<(string, Node)>, k: nat, s: VarState<T, CB>)
    requires k < |entries|
    ensures var before := Load(name, eq, conv, entries[..k], s);
            Load(name, eq, conv, entries[..k + 1], s) ==
            if entries[k].0 != "" && entries[k].0 == name then SetFrom(before, eq, conv, entries[k].1) else before
  {
    assert entries[..k + 1][..k] == entries[..k];
  }

  /** Every listed name is allowed. */
  lemma ListedAllowed(root: Node, i: nat)
    requires i < |Flatten("", root)|
    ensures Allowed(Flatten("", root)[i].0)
  {
    FlattenExactly(root);
    SelectAllowed(Preorder([], root), i);
  }

  // ---------------------------------------------------------------------
  // Runs of the registry

  /** What Lookup, with a default value, does to the types bound to names. */
  function Register(types: map<string, string>, name: string, typeName: string): map<string, string> {
    if name in types || !Allowed(name) then types else types[name := typeName]
  }

  /** What a program does with the registry. */
  datatype Use = LookupUse(name: string, typeName: string) | LoadUse(root: Node)

  /** The types bound to names after one use; a load changes none, as its contract says. */
  function AfterUse(types: map<string, string>, use: Use): map<string, string> {
    match use
    case LookupUse(name, typeName) => Register(types, name, typeName)
    case LoadUse(_) => types
  }

  function Registry(uses: seq<Use>): map<string, string> {
    if uses == [] then map[] else AfterUse(Registry(uses[..|uses| - 1]), uses[|uses| - 1])
  }

  predicate LooksUp(use: Use, name: string) {
    use.LookupUse? && use.name == name
  }

  /**
   The registry after any run of lookups and loads: exactly the allowed names that
   were looked up are bound, each for good to the type of its first lookup.
   */
  lemma {:induction false} RegistryExactly(uses: seq<Use>, name: string)
    ensures name in Registry(uses) <==> Allowed(name) && exists i :: 0 <= i < |uses| && LooksUp(uses[i], name)
    ensures name in Registry(uses) ==>
              exists i :: 0 <= i < |uses| && uses[i] == LookupUse(name, Registry(uses)[name]) &&
                forall j :: 0 <= j < i ==> !LooksUp(uses[j], name)
  {
    if uses != [] {
      var n := |uses| - 1;
      var front := uses[..n];
      RegistryExactly(front, name);
      assert forall j :: 0 <= j < n ==> front[j] == uses[j];
      if name in Registry(front) {
        var i :| 0 <= i < n && front[i] == LookupUse(name, Registry(front)[name]) &&
                 forall j :: 0 <= j < i ==> !LooksUp(front[j], name);
        assert uses[i] == LookupUse(name, Registry(uses)[name]);
      } else if name in Registry(uses) {
        assert uses[n] == LookupUse(name, Registry(uses)[name]);
        assert forall j :: 0 <= j < n ==> !LooksUp(uses[j], name);
      }
    }
  }

  // ---------------------------------------------------------------------
  // What a load leaves in a variable

  /** An entry that gives the variable a value. */
  predicate Sets<T>(e: (string, Node), name: string, conv: Node -> Option<T>) {
    e.0 != "" && e.0 == name && conv(e.1).Some?
  }

  lemma {:induction false} LoadSkips<T, CB>(
    name: string, eq: (T, T) -> bool, conv: Node -> Option<T>, entries: seq<(string, Node)>, s: VarState<T, CB>, k: nat)
    requires k <= |entries| && forall i :: k <= i < |entries| ==> !Sets(entries[i], name, conv)
    ensures Load(name, eq, conv, entries, s) == Load(name, eq, conv, entries[..k], s)
  {
    if k == |entries| {
      assert entries[..k] == entries;
    } else {
      var front := entries[..|entries| - 1];
      assert front[..k] == entries[..k];
      assert forall i :: k <= i < |front| ==> front[i] == entries[i];
      LoadSkips(name, eq, conv, front, s, k);
      assert !Sets(entries[|entries| - 1], name, conv);
    }
  }

  /** The operations on one variable that a list of entries comes down to. */
  function OpsOf<T, CB>(name: string, entries: seq<(string, Node)>): seq<Op<T, CB>> {
    if entries == [] then []
    else
      var e := entries[|entries| - 1];
      OpsOf(name, entries[..|entries| - 1]) + if e.0 != "" && e.0 == name then [FromOp(e.1)] else []
  }

  /** A load is a run of operations on the variable. */
  lemma {:induction false} LoadIsOps<T, CB>(
    name: string, eq: (T, T) -> bool, conv: Node -> Option<T>, entries: seq<(string, Node)>, s: VarState<T, CB>)
    ensures Load(name, eq, conv, entries, s) == RunOps(s, eq, conv, OpsOf(name, entries))
  {
    hide SetFrom;
    if entries != [] {
      var front, e := entries[..|entries| - 1], entries[|entries| - 1];
      LoadIsOps(name, eq, conv, front, s);
      var ops: seq<Op<T, CB>> := OpsOf(name, front);
      if e.0 != "" && e.0 == name {
        RunOpsSnoc(s, eq, conv, ops, FromOp(e.1));
        assert OpsOf<T, CB>(name, entries) == ops + [FromOp(e.1)];
      } else {
        assert OpsOf<T, CB>(name, entries) == ops;
      }
    }
  }

  /** None of these operations touches the listeners. */
  lemma {:induction false} OpsOfStay<T, CB>(name: string, entries: seq<(string, Node)>, key: Key)
    ensures forall op :: op in OpsOf<T, CB>(name, entries) ==> op.FromOp? && Stays(op, key)
  {
    if entries != [] {
      OpsOfStay<T, CB>(name, entries[..|entries| - 1], key);
    }
  }

  /** A variable that no listed node converts for is left alone. */
  lemma LoadNone<T, CB>(
    name: string, eq: (T, T) -> bool, conv: Node -> Option<T>, entries: seq<(string, Node)>, s: VarState<T, CB>)
    requires forall i :: 0 <= i < |entries| ==> !Sets(entries[i], name, conv)
    ensures Load(name, eq, conv, entries, s) == s
  {
    LoadSkips(name, eq, conv, entries, s, 0);
  }

  /**
   The last writer: entry i is the last that converts for the variable.  The
   variable ends with its value exactly unless that value counted as equal to the
   one before it without being the same.
   */
  lemma LastWriterExactly<T, CB>(
    name: string, eq: (T, T) -> bool, conv: Node -> Option<T>, entries: seq<(string, Node)>, s: VarState<T, CB>, i: nat)
    requires i < |entries| && Sets(entries[i], name, conv)
    requires forall j :: i < j < |entries| ==> !Sets(entries[j], name, conv)
    ensures var v, before := conv(entries[i].1).value, Load(name, eq, conv, entries[..i], s).value;
            Load(name, eq, conv, entries, s).value == v <==> (eq(v, before) ==> v == before)
  {
    LoadSkips(name, eq, conv, entries, s, i + 1);
    assert entries[..i + 1][..i] == entries[..i];
  }

  /** Where equal values are the same, the last value that converts is the one the variable ends with. */
  lemma LastWriter<T(!new), CB>(
    name: string, eq: (T, T) -> bool, conv: Node -> Option<T>, root: Node, s: VarState<T, CB>, i: nat)
    requires forall a, b :: eq(a, b) ==> a == b
    requires i < |Flatten("", root)| && Sets(Flatten("", root)[i], name, conv)
    requires forall j :: i < j < |Flatten("", root)| ==> !Sets(Flatten("", root)[j], name, conv)
    ensures Load(name, eq, conv, Flatten("", root), s).value == conv(Flatten("", root)[i].1).value
  {
    var entries := Flatten("", root);
    LastWriterExactly(name, eq, conv, entries, s, i);
    var v, before := conv(entries[i].1).value, Load(name, eq, conv, entries[..i], s).value;
    assert eq(v, before) ==> v == before;
  }

  /** A list that names a variable once at most makes at most one change to it. */
  lemma LoadOnce<T, CB>(
    name: string, eq: (T, T) -> bool, conv: Node -> Option<T>, entries: seq<(string, Node)>, s: VarState<T, CB>, i: nat)
    requires Distinct(entries) && i < |entries| && Sets(entries[i], name, conv)
    ensures Load(name, eq, conv, entries, s) == SetFrom(s, eq, conv, entries[i].1)
  {
    forall j | 0 <= j < |entries| && j != i
      ensures !Sets(entries[j], name, conv)
    {
      assert entries[j].0 != entries[i].0;
    }
    LoadSkips(name, eq, conv, entries, s, i + 1);
    var front := entries[..i + 1];
    assert front[..i] == entries[..i];
    LoadNone(name, eq, conv, entries[..i], s);
  }

  /**
   Silent reload: with well-formed keys and a reflexive equality, loading the same
   tree again changes no variable and calls no listener.
   */
  lemma SilentReload<T(!new), CB>(
    name: string, eq: (T, T) -> bool, conv: Node -> Option<T>, root: Node, s: VarState<T, CB>)
    requires WellKeyed(root) && forall a :: eq(a, a)
    ensures var entries := Flatten("", root);
            var once := Load(name, eq, conv, entries, s);
            Load(name, eq, conv, entries, once) == once
  {
    FlattenDistinct("", root);
    var entries := Flatten("", root);
    var once := Load(name, eq, conv, entries, s);
    if i :| 0 <= i < |entries| && Sets(entries[i], name, conv) {
      LoadOnce(name, eq, conv, entries, s, i);
      LoadOnce(name, eq, conv, entries, once, i);
      var v := conv(entries[i].1).value;
      assert eq(v, v);
    } else {
      LoadNone(name, eq, conv, entries, s);
    }
  }

  /** The names that Lookup accepts are exactly those that some tree can list. */
  lemma NamesAreListable(name: string)
    ensures Allowed(name) <==> exists root, i :: 0 <= i < |Flatten("", root)| && Flatten("", root)[i].0 == name
  {
    if Allowed(name) {
      var root := Map([KeyValue(name, Null)]);
      assert Flatten(Join("", name), Null) == [(name, Null)];
      assert FlattenEntries("", root.entries) == [(name, Null)] + FlattenEntries("", []);
      assert Flatten("", root)[1].0 == name;
    }
    forall root, i | 0 <= i < |Flatten("", root)| && Flatten("", root)[i].0 == name
      ensures Allowed(name)
    {
      ListedAllowed(root, i);
    }
  }

  lemma {:induction false} SelectAllowed(ps: seq<(seq<string>, Node)>, i: nat)
    requires i < |Select(ps)|
    ensures Allowed(Select(ps)[i].0)
  {
    NameAllowed(ps[0].0);
    if !Clean(ps[0].0) {
      SelectAllowed(ps[1..], i);
    } else if i > 0 {
      SelectAllowed(ps[1..], i - 1);
    }
  }
}
