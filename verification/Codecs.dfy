/** The codecs of numbers and containers, nested to any depth. */
module Codecs {
  import opened Alphabets
  import opened Common
  import opened Decimals
  import opened Yaml

  // ---------------------------------------------------------------------
  // Numbers

  predicate IsDigit(c: char) {
    '0' <= c <= '9'
  }

  function DigitValue(c: char): nat
    requires IsDigit(c)
  {
    c as int - '0' as int
  }

  function ValueOf(s: string): nat
    requires forall i :: 0 <= i < |s| ==> IsDigit(s[i])
  {
    if s == "" then 0 else 10 * ValueOf(s[..|s| - 1]) + DigitValue(s[|s| - 1])
  }

  predicate IsInt32(n: int) {
    -0x8000_0000 <= n < 0x8000_0000
  }

  function ReadNat(s: string): Option<nat> {
    if s != "" && forall i :: 0 <= i < |s| ==> IsDigit(s[i]) then Some(ValueOf(s)) else None
  }

  /** lexical_cast to int: an optional sign, at least one digit, nothing else, and no overflow. */
  function ReadInt(s: string): Option<int> {
    var signed := s != "" && (s[0] == '-' || s[0] == '+');
    match ReadNat(if signed then s[1..] else s)
    case None => None
    case Some(m) =>
      var k: int := m;
      var n := if signed && s[0] == '-' then -k else k;
      if IsInt32(n) then Some(n) else None
  }

  lemma {:induction false} ValueOfDigits(n: nat)
    ensures ValueOf(Digits(n)) == n
  {
    var front := if n < 10 then "" else Digits(n / 10);
    var s := Digits(n);
    assert s == front + [Digit(n % 10)];
    assert s[..|s| - 1] == front;
    if n >= 10 {
      ValueOfDigits(n / 10);
    }
  }

  /** Numbers of the type's range are read back from their decimal spelling, and no others. */
  lemma ReadDecimal(n: int)
    ensures ReadInt(Decimal(n)) == if IsInt32(n) then Some(n) else None
  {
    var m := if n < 0 then -n else n;
    ValueOfDigits(m);
    hide ValueOf, Digits;
    var s := Decimal(n);
    assert n < 0 ==> s[1..] == Digits(m);
    assert n >= 0 ==> s[0] != '-' && s[0] != '+';
  }

  /** The decimal spelling: digits, a minus sign before those of a negative number, and no zero in front. */
  lemma DecimalShape(n: int)
    ensures n == 0 <==> Decimal(n) == "0"
    ensures n < 0 <==> Decimal(n)[0] == '-'
    ensures n < 0 ==> Decimal(n) == "-" + Decimal(-n)
    ensures n > 0 ==> Decimal(n)[0] != '0' && forall i :: 0 <= i < |Decimal(n)| ==> Decimal(n)[i] in DIGITS
  {
    if n > 0 {
      DigitsShape(n);
      forall i | 0 <= i < |Decimal(n)| ensures Decimal(n)[i] in DIGITS {
        DigitExactly(Decimal(n)[i]);
      }
    }
    if n < 0 {
      DigitsShape(-n);
    }
  }

  lemma {:induction false} DigitsShape(n: nat)
    requires n > 0
    ensures Digits(n)[0] != '0'
  {
    if n >= 10 {
      DigitsShape(n / 10);
    }
  }

  /** The value of a string of digits, from the left: the first stands for the most. */
  function Horner(s: string, sofar: nat): nat
    requires forall i :: 0 <= i < |s| ==> s[i] in DIGITS
  {
    if s == "" then sofar
    else
      DigitExactly(s[0]);
      Horner(s[1..], 10 * sofar + (s[0] as int - '0' as int))
  }

  lemma {:induction false} HornerSnoc(s: string, sofar: nat)
    requires s != "" && forall i :: 0 <= i < |s| ==> s[i] in DIGITS
    ensures s[|s| - 1] in DIGITS && '0' <= s[|s| - 1]
    ensures Horner(s, sofar) == 10 * Horner(s[..|s| - 1], sofar) + (s[|s| - 1] as int - '0' as int)
  {
    DigitExactly(s[0]);
    DigitExactly(s[|s| - 1]);
    if |s| == 1 {
      assert s[..0] == "" && s[1..] == "";
    } else {
      var d := s[0] as int - '0' as int;
      HornerSnoc(s[1..], 10 * sofar + d);
      assert s[1..][..|s| - 2] == s[..|s| - 1][1..];
    }
  }

  lemma {:induction false} HornerIs(s: string)
    requires forall i :: 0 <= i < |s| ==> s[i] in DIGITS
    ensures (forall i :: 0 <= i < |s| ==> IsDigit(s[i])) && ValueOf(s) == Horner(s, 0)
  {
    forall i | 0 <= i < |s| ensures IsDigit(s[i]) {
      DigitExactly(s[i]);
    }
    if s != "" {
      HornerIs(s[..|s| - 1]);
      HornerSnoc(s, 0);
    }
  }

  /** A text is all digits, and there are some. */
  predicate AllDigits(s: string) {
    s != "" && forall i :: 0 <= i < |s| ==> s[i] in DIGITS
  }

  /** What text is a number: digits, after a sign or not, whose value fits 32 bits; and which number it is. */
  lemma ReadIntExactly(s: string, sign: string, ds: string)
    requires sign in {"", "+", "-"} && s == sign + ds && (sign == "" && s != "" ==> s[0] != '+' && s[0] != '-')
    ensures ReadInt(s).Some? ==> AllDigits(ds)
    ensures AllDigits(ds) ==>
              var n: int := Horner(ds, 0);
              ReadInt(s) == if IsInt32(if sign == "-" then -n else n) then Some(if sign == "-" then -n else n) else None
  {
    ReadNatExactly(ds);
    hide ReadNat, AllDigits, Horner;
    assert sign != "" ==> s[1..] == ds && s[0] == sign[0];
    assert sign == "" ==> s == ds;
  }

  lemma ReadNatExactly(ds: string)
    ensures ReadNat(ds) == if AllDigits(ds) then Some(Horner(ds, 0)) else None
  {
    forall i | 0 <= i < |ds| ensures ds[i] in DIGITS <==> IsDigit(ds[i]) {
      DigitExactly(ds[i]);
    }
    if AllDigits(ds) {
      HornerIs(ds);
    }
    hide ValueOf, Horner, IsDigit;
  }

  /** The range of the type, written out. */
  lemma IntRange(n: int)
    ensures ReadInt(Decimal(n)) == if -2147483648 <= n <= 2147483647 then Some(n) else None
  {
    ReadDecimal(n);
    hide ReadInt, Decimal;
  }

  // ---------------------------------------------------------------------
  // Types and values

  datatype Ty =
    | IntTy
    | VectorTy(elem: Ty)
    | ListTy(elem: Ty)
    | SetTy(elem: Ty)
    | UnorderedSetTy(elem: Ty)
    | MapTy(elem: Ty)
    | UnorderedMapTy(elem: Ty)

  datatype Val = IntVal(n: int) | SeqVal(items: seq<Val>) | SetVal(elems: set<Val>) | MapVal(fields: map<string, Val>)

  predicate HasType(v: Val, ty: Ty)
    decreases ty
  {
    match ty
    case IntTy => v.IntVal? && IsInt32(v.n)
    case VectorTy(e) => v.SeqVal? && forall x :: x in v.items ==> HasType(x, e)
    case ListTy(e) => v.SeqVal? && forall x :: x in v.items ==> HasType(x, e)
    case SetTy(e) => v.SetVal? && forall x :: x in v.elems ==> HasType(x, e)
    case UnorderedSetTy(e) => v.SetVal? && forall x :: x in v.elems ==> HasType(x, e)
    case MapTy(e) => v.MapVal? && forall k :: k in v.fields ==> HasType(v.fields[k], e)
    case UnorderedMapTy(e) => v.MapVal? && forall k :: k in v.fields ==> HasType(v.fields[k], e)
  }

  // ---------------------------------------------------------------------
  // Reading

  /** A value of a type; None is an exception. */
  function Read(ty: Ty, n: Node): Option<Val>
    decreases ty, 0
  {
    match ty
    case IntTy =>
      if !n.Scalar? then None
      else (match ReadInt(n.text) case Some(i) => Some(IntVal(i)) case None => None)
    case VectorTy(e) => (match ReadItems(e, n, Size(n)) case Some(xs) => Some(SeqVal(xs)) case None => None)
    case ListTy(e) => (match ReadItems(e, n, Size(n)) case Some(xs) => Some(SeqVal(xs)) case None => None)
    case SetTy(e) => (match ReadItems(e, n, Size(n)) case Some(xs) => Some(SetVal(set x | x in xs)) case None => None)
    case UnorderedSetTy(e) =>
      (match ReadItems(e, n, Size(n)) case Some(xs) => Some(SetVal(set x | x in xs)) case None => None)
    case MapTy(e) => (match ReadFields(e, n, Size(n)) case Some(m) => Some(MapVal(m)) case None => None)
    case UnorderedMapTy(e) => (match ReadFields(e, n, Size(n)) case Some(m) => Some(MapVal(m)) case None => None)
  }

  /** The first k children of a node. */
  function ReadItems(e: Ty, n: Node, k: nat): Option<seq<Val>>
    requires k <= Size(n)
    decreases e, 1, k
  {
    if k == 0 then Some([])
    else
      match (ReadItems(e, n, k - 1), Read(e, Child(n, k - 1)))
      case (Some(xs), Some(x)) => Some(xs + [x])
      case _ => None
  }

  /** The first k entries of a map; the elements of a sequence have no key, which is an exception. */
  function ReadFields(e: Ty, n: Node, k: nat): Option<map<string, Val>>
    requires k <= Size(n)
    decreases e, 1, k
  {
    if k == 0 then Some(map[])
    else if !n.Map? then None
    else
      match (ReadFields(e, n, k - 1), Read(e, n.entries[k - 1].value))
      case (Some(m), Some(x)) => Some(if n.entries[k - 1].key in m then m else m[n.entries[k - 1].key := x])
      case _ => None
  }

  /** A list or a set reads exactly if all its elements do. */
  lemma {:induction false} ItemsExactly(e: Ty, n: Node, k: nat)
    requires k <= Size(n)
    ensures ReadItems(e, n, k).Some? <==> forall i :: 0 <= i < k ==> Read(e, Child(n, i)).Some?
    ensures ReadItems(e, n, k).Some? ==>
              && |ReadItems(e, n, k).value| == k
              && forall i :: 0 <= i < k ==> Read(e, Child(n, i)) == Some(ReadItems(e, n, k).value[i])
    decreases k
  {
    hide Read, Child;
    if k > 0 {
      ItemsExactly(e, n, k - 1);
    }
  }

  /** What a node reads as at a type of lists: all elements, in order; a node without any is empty. */
  lemma ListReads(ty: Ty, e: Ty, n: Node)
    requires ty == VectorTy(e) || ty == ListTy(e)
    ensures Read(ty, n).Some? <==> forall i :: 0 <= i < Size(n) ==> Read(e, Child(n, i)).Some?
    ensures Read(ty, n).Some? ==>
              && Read(ty, n).value.SeqVal? && |Read(ty, n).value.items| == Size(n)
              && forall i :: 0 <= i < Size(n) ==> Read(e, Child(n, i)) == Some(Read(ty, n).value.items[i])
  {
    ItemsExactly(e, n, Size(n));
    hide ReadItems, Child, Size;
  }

  /** What a node reads as at a type of sets: its elements, and one that is repeated does no harm. */
  lemma SetReads(ty: Ty, e: Ty, n: Node, x: Val)
    requires ty == SetTy(e) || ty == UnorderedSetTy(e)
    ensures Read(ty, n).Some? <==> forall i :: 0 <= i < Size(n) ==> Read(e, Child(n, i)).Some?
    ensures Read(ty, n).Some? ==>
              && Read(ty, n).value.SetVal?
              && (x in Read(ty, n).value.elems <==> exists i :: 0 <= i < Size(n) && Read(e, Child(n, i)) == Some(x))
  {
    ItemsExactly(e, n, Size(n));
    if Read(ty, n).Some? {
      var xs := ReadItems(e, n, Size(n)).value;
      assert Read(ty, n).value == SetVal(set y | y in xs);
      assert x in Read(ty, n).value.elems <==> x in xs;
      if x in xs {
        var i :| 0 <= i < |xs| && xs[i] == x;
        assert Read(e, Child(n, i)) == Some(x);
      }
    }
    hide ReadItems, Child, Size;
  }

  /** The entries of a map up to some index: all their values read, and each key has the first of its values. */
  lemma {:induction false} FieldsExactly(e: Ty, n: Node, k: nat, key: string)
    requires k <= Size(n)
    ensures ReadFields(e, n, k).Some? <==>
            k == 0 || (n.Map? && forall i :: 0 <= i < k ==> Read(e, n.entries[i].value).Some?)
    ensures ReadFields(e, n, k).Some? && k > 0 ==>
              && (key in ReadFields(e, n, k).value <==> exists i :: 0 <= i < k && n.entries[i].key == key)
              && (key in ReadFields(e, n, k).value ==>
                    exists i :: 0 <= i < k && n.entries[i].key == key
                      && Read(e, n.entries[i].value) == Some(ReadFields(e, n, k).value[key])
                      && forall j :: 0 <= j < i ==> n.entries[j].key != key)
    decreases k
  {
    hide Read;
    if k > 0 && n.Map? {
      FieldsExactly(e, n, k - 1, key);
      FieldsStep(e, n, k);
      hide ReadFields;
      assert n.entries[k - 1] == n.entries[k - 1];
    }
  }

  lemma FieldsStep(e: Ty, n: Node, k: nat)
    requires n.Map? && 0 < k <= Size(n)
    ensures ReadFields(e, n, 0) == Some(map[])
    ensures ReadFields(e, n, k) ==
            if ReadFields(e, n, k - 1).None? || Read(e, n.entries[k - 1].value).None? then None
            else
              var m, entry := ReadFields(e, n, k - 1).value, n.entries[k - 1];
              Some(if entry.key in m then m else m[entry.key := Read(e, entry.value).value])
  {
    hide Read;
  }

  /** What a node reads as at a type of maps: its entries, and of those with the same key the first. */
  lemma MapReads(ty: Ty, e: Ty, n: Node, key: string)
    requires ty == MapTy(e) || ty == UnorderedMapTy(e)
    ensures Read(ty, n).Some? <==>
            Size(n) == 0 || (n.Map? && forall i :: 0 <= i < Size(n) ==> Read(e, n.entries[i].value).Some?)
    ensures Read(ty, n).Some? ==> Read(ty, n).value.MapVal?
    ensures Read(ty, n).Some? && Size(n) == 0 ==> Read(ty, n).value.fields == map[]
    ensures Read(ty, n).Some? && Size(n) > 0 ==>
              var m := Read(ty, n).value.fields;
              && (key in m <==> exists i :: 0 <= i < Size(n) && n.entries[i].key == key)
              && (key in m ==>
                    exists i :: 0 <= i < Size(n) && n.entries[i].key == key
                      && Read(e, n.entries[i].value) == Some(m[key])
                      && forall j :: 0 <= j < i ==> n.entries[j].key != key)
  {
    FieldsExactly(e, n, Size(n), key);
    assert ReadFields(e, n, 0) == Some(map[]);
    hide ReadFields;
  }

  /** A set with a repeated element, as a configuration file may have it. */
  lemma RepeatedElement()
    ensures Read(SetTy(IntTy), Sequence([Scalar("12"), Scalar("12"), Scalar("20")])) ==
            Some(SetVal({IntVal(12), IntVal(20)}))
  {
    Spellings();
    ReadDecimal(12);
    ReadDecimal(20);
    hide ReadInt;
    var n := Sequence([Scalar("12"), Scalar("12"), Scalar("20")]);
    assert Read(IntTy, Child(n, 0)) == Read(IntTy, Child(n, 1)) == Some(IntVal(12));
    assert Read(IntTy, Child(n, 2)) == Some(IntVal(20));
    ItemsExactly(IntTy, n, 3);
    hide ReadItems;
    var xs := ReadItems(IntTy, n, 3).value;
    assert xs == [IntVal(12), IntVal(12), IntVal(20)];
    assert (set x | x in xs) == {IntVal(12), IntVal(20)};
  }

  lemma Spellings()
    ensures Decimal(12) == "12" && Decimal(20) == "20"
  {
    assert Digits(1) == "" + [Digit(1)] == "1" && Digits(2) == "" + [Digit(2)] == "2";
    assert Digits(12) == Digits(1) + [Digit(2)] && Digits(20) == Digits(2) + [Digit(0)];
  }

  // ---------------------------------------------------------------------
  // Writing

  /** xs lists the elements of a set, each once, in some order. */
  ghost predicate Lists<A(!new)>(xs: seq<A>, s: set<A>) {
    && (forall x :: x in xs <==> x in s)
    && forall i, j :: 0 <= i < j < |xs| ==> xs[i] != xs[j]
  }

  /**
   n is a written form of v.  A set or a map may be written in any order, as
   unordered containers are; an empty container is written as null.
   */
  ghost predicate WrittenAs(v: Val, n: Node)
    decreases v, 1
  {
    match v
    case IntVal(i) => n == Scalar(Decimal(i))
    case SeqVal(items) => if items == [] then n == Null else n.Sequence? && WrittenItems(v, items, n.items)
    case SetVal(elems) =>
      if elems == {} then n == Null else n.Sequence? && exists xs :: Lists(xs, elems) && WrittenItems(v, xs, n.items)
    case MapVal(fields) =>
      if fields == map[] then n == Null
      else n.Map? && exists ks :: Lists(ks, fields.Keys) && WrittenEntries(v, ks, n.entries)
  }

  /** The nodes are written forms of elements of v. */
  ghost predicate WrittenItems(v: Val, xs: seq<Val>, nodes: seq<Node>)
    decreases v, 0
  {
    |nodes| == |xs| && forall i :: 0 <= i < |xs| ==> ElementOf(xs[i], v) && WrittenAs(xs[i], nodes[i])
  }

  ghost predicate ElementOf(x: Val, v: Val) {
    (v.SeqVal? && x in v.items) || (v.SetVal? && x in v.elems)
  }

  /** The entries are written forms of entries of v. */
  ghost predicate WrittenEntries(v: Val, ks: seq<string>, entries: seq<KeyValue>)
    decreases v, 0
  {
    && v.MapVal? && |entries| == |ks|
    && forall i :: 0 <= i < |ks| ==>
         ks[i] in v.fields && entries[i].key == ks[i] && WrittenAs(v.fields[ks[i]], entries[i].value)
  }

  // ---------------------------------------------------------------------
  // Reading what was written

  lemma {:induction false} ReadItemsOf(e: Ty, xs: seq<Val>, n: Node, k: nat)
    requires n.Sequence? && |n.items| == |xs| && k <= |xs|
    requires forall i :: 0 <= i < |xs| ==> Read(e, n.items[i]) == Some(xs[i])
    ensures ReadItems(e, n, k) == Some(xs[..k])
    decreases k
  {
    hide Read;
    if k > 0 {
      ReadItemsOf(e, xs, n, k - 1);
      assert xs[..k] == xs[..k - 1] + [xs[k - 1]];
    }
  }

  function Fields(m: map<string, Val>, ks: seq<string>): map<string, Val>
    requires forall k :: k in ks ==> k in m
  {
    map k | k in ks :: m[k]
  }

  lemma FieldsSnoc(m: map<string, Val>, ks: seq<string>, k: nat)
    requires 0 < k <= |ks| && (forall x :: x in ks ==> x in m)
    requires forall i, j :: 0 <= i < j < |ks| ==> ks[i] != ks[j]
    ensures ks[k - 1] !in Fields(m, ks[..k - 1])
    ensures Fields(m, ks[..k]) == Fields(m, ks[..k - 1])[ks[k - 1] := m[ks[k - 1]]]
  {
    assert ks[..k] == ks[..k - 1] + [ks[k - 1]];
  }

  lemma {:induction false} ReadFieldsOf(e: Ty, m: map<string, Val>, ks: seq<string>, n: Node, k: nat)
    requires n.Map? && |n.entries| == |ks| && k <= |ks| && forall x :: x in ks ==> x in m
    requires forall i, j :: 0 <= i < j < |ks| ==> ks[i] != ks[j]
    requires forall i :: 0 <= i < |ks| ==> n.entries[i].key == ks[i] && Read(e, n.entries[i].value) == Some(m[ks[i]])
    ensures ReadFields(e, n, k) == Some(Fields(m, ks[..k]))
    decreases k
  {
    if k > 0 {
      hide Read, Fields;
      ReadFieldsOf(e, m, ks, n, k - 1);
      FieldsStep(e, n, k);
      hide ReadFields;
      FieldsSnoc(m, ks, k);
      var i := k - 1;
      assert n.entries[i].key == ks[i] && Read(e, n.entries[i].value) == Some(m[ks[i]]);
    } else {
      assert ks[..0] == [] && Fields(m, []) == map[];
    }
  }

  /**
   The codec universe: for every nesting of the container types over int, reading
   any written form of a value gives the value back.
   */
  lemma {:induction false} ReadWritten(ty: Ty, v: Val, n: Node)
    requires HasType(v, ty) && WrittenAs(v, n)
    ensures Read(ty, n) == Some(v)
    decreases ty, 0
  {
    match ty
    case IntTy => ReadDecimal(v.n);
    case VectorTy(e) => ReadWrittenItems(e, v, n);
    case ListTy(e) => ReadWrittenItems(e, v, n);
    case SetTy(e) => ReadWrittenSet(e, v, n);
    case UnorderedSetTy(e) => ReadWrittenSet(e, v, n);
    case MapTy(e) => ReadWrittenMap(e, v, n);
    case UnorderedMapTy(e) => ReadWrittenMap(e, v, n);
  }

  lemma {:induction false} ReadWrittenElements(e: Ty, v: Val, xs: seq<Val>, n: Node)
    requires n.Sequence? && WrittenItems(v, xs, n.items)
    requires forall x :: x in xs ==> HasType(x, e)
    ensures ReadItems(e, n, Size(n)) == Some(xs)
    decreases e, 1
  {
    hide HasType, Read, ReadItems, WrittenAs;
    forall i | 0 <= i < |xs|
      ensures Read(e, n.items[i]) == Some(xs[i])
    {
      ReadWritten(e, xs[i], n.items[i]);
    }
    ReadItemsOf(e, xs, n, |xs|);
    assert xs[..|xs|] == xs;
  }

  lemma {:induction false} ReadWrittenItems(e: Ty, v: Val, n: Node)
    requires v.SeqVal? && (forall x :: x in v.items ==> HasType(x, e)) && WrittenAs(v, n)
    ensures ReadItems(e, n, Size(n)) == Some(v.items)
    decreases e, 2
  {
    hide HasType, Read, WrittenItems;
    if v.items != [] {
      ReadWrittenElements(e, v, v.items, n);
    }
  }

  lemma {:induction false} ReadWrittenSet(e: Ty, v: Val, n: Node)
    requires v.SetVal? && (forall x :: x in v.elems ==> HasType(x, e)) && WrittenAs(v, n)
    ensures ReadItems(e, n, Size(n)).Some? && (set x | x in ReadItems(e, n, Size(n)).value) == v.elems
    decreases e, 2
  {
    hide HasType, Read, WrittenItems;
    if v.elems != {} {
      var xs :| Lists(xs, v.elems) && WrittenItems(v, xs, n.items);
      ReadWrittenElements(e, v, xs, n);
    }
  }

  lemma {:induction false} ReadWrittenMap(e: Ty, v: Val, n: Node)
    requires v.MapVal? && (forall k :: k in v.fields ==> HasType(v.fields[k], e)) && WrittenAs(v, n)
    ensures ReadFields(e, n, Size(n)) == Some(v.fields)
    decreases e, 2
  {
    hide HasType, Read, WrittenEntries;
    if v.fields != map[] {
      var ks :| Lists(ks, v.fields.Keys) && WrittenEntries(v, ks, n.entries);
      ReadWrittenEntries(e, v, ks, n);
      assert Fields(v.fields, ks) == v.fields;
    }
  }

  lemma {:induction false} ReadWrittenEntries(e: Ty, v: Val, ks: seq<string>, n: Node)
    requires n.Map? && v.MapVal? && WrittenEntries(v, ks, n.entries) && Lists(ks, v.fields.Keys)
    requires forall k :: k in v.fields ==> HasType(v.fields[k], e)
    ensures ReadFields(e, n, Size(n)) == Some(Fields(v.fields, ks))
    decreases e, 1
  {
    hide HasType, Read, ReadFields, WrittenAs;
    forall i | 0 <= i < |ks|
      ensures Read(e, n.entries[i].value) == Some(v.fields[ks[i]])
    {
      ReadWritten(e, v.fields[ks[i]], n.entries[i].value);
    }
    ReadFieldsOf(e, v.fields, ks, n, |ks|);
    assert ks[..|ks|] == ks;
  }

  /** The written form of a container by itself: null if it is empty, and otherwise as many nodes as elements. */
  lemma WrittenShape(v: Val, n: Node)
    requires WrittenAs(v, n)
    ensures v.IntVal? ==> n == Scalar(Decimal(v.n))
    ensures v.SeqVal? ==> (n == Null <==> v.items == []) && Size(n) == |v.items|
    ensures v.SetVal? ==> (n == Null <==> v.elems == {})
    ensures v.MapVal? ==> (n == Null <==> v.fields == map[])
    ensures v.SeqVal? || v.SetVal? ==> n.Null? || n.Sequence?
    ensures v.MapVal? ==> n.Null? || n.Map?
  {
    hide WrittenItems, Lists, WrittenEntries;
    if v.SeqVal? && v.items != [] {
      WrittenLength(v, v.items, n.items);
    }
  }

  lemma WrittenLength(v: Val, xs: seq<Val>, nodes: seq<Node>)
    requires WrittenItems(v, xs, nodes)
    ensures |nodes| == |xs|
  {}

  // ---------------------------------------------------------------------
  // The loops

  /** The writer. */
  method Write(v: Val) returns (n: Node)
    ensures WrittenAs(v, n)
    decreases v, 1
  {
    match v
    case IntVal(i) => n := Scalar(Decimal(i));
    case SeqVal(items) =>
      var nodes := WriteItems(v, items);
      n := if nodes == [] then Null else Sequence(nodes);
    case SetVal(elems) =>
      var nodes := WriteSet(v, elems);
      n := if nodes == [] then Null else Sequence(nodes);
    case MapVal(fields) =>
      var entries := WriteMap(v, fields);
      n := if entries == [] then Null else Map(entries);
  }

  method WriteItems(ghost v: Val, items: seq<Val>) returns (nodes: seq<Node>)
    requires v == SeqVal(items)
    ensures WrittenItems(v, items, nodes)
    decreases v, 0
  {
    hide WrittenAs;
    nodes := [];
    for k := 0 to |items|
      invariant WrittenItems(v, items[..k], nodes)
    {
      var x := Write(items[k]);
      nodes := nodes + [x];
    }
    assert items[..|items|] == items;
  }

  method WriteSet(ghost v: Val, elems: set<Val>) returns (nodes: seq<Node>)
    requires v == SetVal(elems)
    ensures exists xs :: Lists(xs, elems) && WrittenItems(v, xs, nodes)
    ensures nodes == [] <==> elems == {}
    decreases v, 0
  {
    hide WrittenAs;
    nodes := [];
    ghost var xs: seq<Val> := [];
    var left := elems;
    while left != {}
      invariant left <= elems && Lists(xs, elems - left) && WrittenItems(v, xs, nodes)
      decreases left
    {
      var x :| x in left;
      var node := Write(x);
      nodes := nodes + [node];
      xs := xs + [x];
      left := left - {x};
    }
    assert elems - left == elems && (xs != [] ==> xs[0] in elems);
  }

  method WriteMap(ghost v: Val, fields: map<string, Val>) returns (entries: seq<KeyValue>)
    requires v == MapVal(fields)
    ensures exists ks :: Lists(ks, fields.Keys) && WrittenEntries(v, ks, entries)
    ensures entries == [] <==> fields == map[]
    decreases v, 0
  {
    hide WrittenAs;
    entries := [];
    ghost var ks: seq<string> := [];
    var left := fields.Keys;
    while left != {}
      invariant left <= fields.Keys && Lists(ks, fields.Keys - left) && WrittenEntries(v, ks, entries)
      decreases left
    {
      var key :| key in left;
      var node := Write(fields[key]);
      entries := entries + [KeyValue(key, node)];
      ks := ks + [key];
      left := left - {key};
    }
    assert fields.Keys - left == fields.Keys && (ks != [] ==> ks[0] in fields);
  }

  /** The reader. */
  method FromNode(ty: Ty, n: Node) returns (r: Option<Val>)
    ensures r == Read(ty, n)
    decreases ty, 0
  {
    match ty
    case IntTy =>
      if !n.Scalar? {
        return None;
      }
      var i := ReadInt(n.text);
      r := if i.Some? then Some(IntVal(i.value)) else None;
    case VectorTy(e) => var xs := ItemsFromNode(e, n); r := if xs.Some? then Some(SeqVal(xs.value)) else None;
    case ListTy(e) => var xs := ItemsFromNode(e, n); r := if xs.Some? then Some(SeqVal(xs.value)) else None;
    case SetTy(e) => var xs := ItemsFromNode(e, n); r := if xs.Some? then Some(SetVal(set x | x in xs.value)) else None;
    case UnorderedSetTy(e) =>
      var xs := ItemsFromNode(e, n);
      r := if xs.Some? then Some(SetVal(set x | x in xs.value)) else None;
    case MapTy(e) => var m := FieldsFromNode(e, n); r := if m.Some? then Some(MapVal(m.value)) else None;
    case UnorderedMapTy(e) => var m := FieldsFromNode(e, n); r := if m.Some? then Some(MapVal(m.value)) else None;
  }

  method ItemsFromNode(e: Ty, n: Node) returns (r: Option<seq<Val>>)
    ensures r == ReadItems(e, n, Size(n))
    decreases e, 1
  {
    hide Read;
    var xs: seq<Val> := [];
    for k := 0 to Size(n)
      invariant ReadItems(e, n, k) == Some(xs)
    {
      var x := FromNode(e, Child(n, k));
      if x == None {
        ItemsFail(e, n, k + 1, Size(n));
        return None;
      }
      xs := xs + [x.value];
    }
    r := Some(xs);
  }

  lemma ItemsFail(e: Ty, n: Node, j: nat, k: nat)
    requires j <= k <= Size(n) && ReadItems(e, n, j) == None
    ensures ReadItems(e, n, k) == None
    decreases k
  {
    hide Read;
    if j < k {
      ItemsFail(e, n, j, k - 1);
    }
  }

  method FieldsFromNode(e: Ty, n: Node) returns (r: Option<map<string, Val>>)
    ensures r == ReadFields(e, n, Size(n))
    decreases e, 1
  {
    hide Read;
    var m: map<string, Val> := map[];
    for k := 0 to Size(n)
      invariant ReadFields(e, n, k) == Some(m)
    {
      if !n.Map? {
        FieldsFail(e, n, k + 1, Size(n));
        return None;
      }
      var x := FromNode(e, n.entries[k].value);
      if x == None {
        FieldsFail(e, n, k + 1, Size(n));
        return None;
      }
      if n.entries[k].key !in m {
        m := m[n.entries[k].key := x.value];
      }
    }
    r := Some(m);
  }

  lemma FieldsFail(e: Ty, n: Node, j: nat, k: nat)
    requires j <= k <= Size(n) && ReadFields(e, n, j) == None
    ensures ReadFields(e, n, k) == None
    decreases k
  {
    hide Read;
    if j < k {
      FieldsFail(e, n, j, k - 1);
    }
  }
}
