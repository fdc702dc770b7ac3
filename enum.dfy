/** pandasutils/enum.py: `Enum`, whose classes keep a lazily built table of their members in a
    class attribute `__kv__`. A class is seen through its method resolution order: the class
    itself first, the base `Enum` last. Reading `cls.__kv__` finds the first class on that order
    that has the attribute of its own. */
module Enums {
  import opened Common

  /** One entry of a class's own `__dict__`, in declaration order. */
  datatype Attr<V> = Attr(name: string, value: V, isCallable: bool)

  /** A `dict[str, Any]` object, its entries in insertion order. */
  class KvTable<V> {
    var entries: seq<(string, V)>

    constructor ()
      ensures entries == []
    {
      entries := [];
    }
  }

  /** An enum class: its own attributes, and its own `__kv__` attribute (`null` when it has none
      and inherits the attribute). */
  class EnumClass<V> {
    const attrs: seq<Attr<V>>
    var kv: KvTable?<V>

    /** A class whose `__dict__` holds `attrs`; the base `Enum` comes with `__kv__ = {}`. */
    constructor (attrs: seq<Attr<V>>, kv: KvTable?<V>)
      ensures this.attrs == attrs && this.kv == kv
    {
      this.attrs := attrs;
      this.kv := kv;
    }
  }

  /** Whether a name begins with `__`. */
  predicate Dunder(name: string)
  {
    |name| >= 2 && name[..2] == "__"
  }

  /** Whether `_initialize` takes an attribute into the table. */
  predicate Member<V>(a: Attr<V>)
  {
    !a.isCallable && !Dunder(a.name)
  }

  /** The table `_initialize` builds from a class's own attributes. */
  function Scan<V>(attrs: seq<Attr<V>>): (r: seq<(string, V)>)
    ensures |r| <= |attrs|
  {
    if attrs == [] then []
    else
      var a := attrs[|attrs| - 1];
      Scan(attrs[..|attrs| - 1]) + (if Member(a) then [(a.name, a.value)] else [])
  }

  /** The table keeps declaration order: scanning distributes over concatenation. */
  lemma {:induction false} ScanAppend<V>(a: seq<Attr<V>>, b: seq<Attr<V>>)
    ensures Scan(a + b) == Scan(a) + Scan(b)
  {
    if b != [] {
      assert (a + b)[..|a + b| - 1] == a + b[..|b| - 1];
      assert (a + b)[|a + b| - 1] == b[|b| - 1];
      ScanAppend(a, b[..|b| - 1]);
    } else {
      assert a + b == a;
    }
  }

  /** A pair is in the table exactly when an attribute of that name and value is neither callable
      nor a `__` name; single-underscore names are kept. */
  lemma {:induction false} ScanMembers<V>(attrs: seq<Attr<V>>, name: string, value: V)
    ensures (name, value) in Scan(attrs) <==>
      exists i :: 0 <= i < |attrs| && attrs[i] == Attr(name, value, false) && !Dunder(name)
  {
    if attrs != [] {
      var init := attrs[..|attrs| - 1];
      ScanMembers(init, name, value);
      assert forall i :: 0 <= i < |init| ==> init[i] == attrs[i];
      if exists i :: 0 <= i < |attrs| && attrs[i] == Attr(name, value, false) && !Dunder(name) {
        var i :| 0 <= i < |attrs| && attrs[i] == Attr(name, value, false) && !Dunder(name);
        if i < |init| {
          assert init[i] == Attr(name, value, false);
        }
      }
    }
  }

  /** `_red`, a plain value, is a member; `__doc__` and a method are not. */
  lemma ScanExample(red: int, doc: int, method_: int)
    ensures Scan([Attr("__doc__", doc, false), Attr("_red", red, false), Attr("paint", method_, true)])
         == [("_red", red)]
  {
    var attrs := [Attr("__doc__", doc, false), Attr("_red", red, false), Attr("paint", method_, true)];
    assert Dunder("__doc__");
    assert !Dunder("_red") by {
      assert "_red"[..2] == "_r";
    }
    assert attrs[..1] == [Attr("__doc__", doc, false)] && attrs[..1][..0] == [];
    assert Scan(attrs[..1]) == [];
    assert attrs[..2][..1] == attrs[..1];
    assert Scan(attrs[..2]) == [("_red", red)];
  }

  /** A method resolution order: the class first, no class twice, and the base `Enum`, which has
      `__kv__` of its own, last. */
  ghost predicate Hierarchy<V>(mro: seq<EnumClass<V>>)
    reads set i | 0 <= i < |mro| :: mro[i]
  {
    && |mro| > 0
    && mro[|mro| - 1].kv != null
    && forall i, j :: 0 <= i < j < |mro| ==> mro[i] != mro[j]
  }

  /** `cls.__kv__`: the table of the first class on the order that has one. */
  function Resolve<V>(mro: seq<EnumClass<V>>): (t: KvTable<V>)
    requires |mro| > 0 && mro[|mro| - 1].kv != null
    reads set i | 0 <= i < |mro| :: mro[i]
    ensures exists i :: 0 <= i < |mro| && mro[i].kv == t && forall j :: 0 <= j < i ==> mro[j].kv == null
  {
    if mro[0].kv != null then mro[0].kv
    else
      var t := Resolve(mro[1..]);
      assert forall j :: 1 <= j < |mro| ==> mro[j] == mro[1..][j - 1];
      t
  }

  /** `cls._initialize()`: while `cls.__kv__` is empty, give `cls` a fresh table of its own and
      fill it from its own attributes; once it is non-empty, change nothing. */
  method Initialize<V>(mro: seq<EnumClass<V>>)
    requires Hierarchy(mro)
    modifies mro[0]
    ensures Hierarchy(mro)
    ensures forall i :: 1 <= i < |mro| ==> mro[i].kv == old(mro[i].kv)
    ensures old(|Resolve(mro).entries|) > 0 ==> mro[0].kv == old(mro[0].kv)
    ensures old(|Resolve(mro).entries|) == 0 ==> fresh(mro[0].kv) && mro[0].kv.entries == Scan(mro[0].attrs)
    ensures Resolve(mro).entries == (if old(|Resolve(mro).entries|) > 0 then old(Resolve(mro).entries) else Scan(mro[0].attrs))
  {
    var cls := mro[0];
    var current := Resolve(mro);
    if |current.entries| == 0 {
      var table := new KvTable();
      cls.kv := table;
      var i := 0;
      while i < |cls.attrs|
        invariant 0 <= i <= |cls.attrs|
        invariant cls.kv == table && table.entries == Scan(cls.attrs[..i])
        invariant forall j :: 1 <= j < |mro| ==> mro[j].kv == old(mro[j].kv)
        modifies table
      {
        var a := cls.attrs[i];
        assert cls.attrs[..i + 1] == cls.attrs[..i] + [a];
        if !a.isCallable && !(|a.name| >= 2 && a.name[..2] == "__") {
          table.entries := table.entries + [(a.name, a.value)];
        }
        i := i + 1;
      }
      assert cls.attrs[..i] == cls.attrs;
    }
  }

  /** `cls.dict()`: the table itself, not a copy. */
  method Dict<V>(mro: seq<EnumClass<V>>) returns (t: KvTable<V>)
    requires Hierarchy(mro)
    modifies mro[0]
    ensures Hierarchy(mro) && t == Resolve(mro)
    ensures old(|Resolve(mro).entries|) > 0 ==> t == old(Resolve(mro)) && t.entries == old(t.entries)
    ensures old(|Resolve(mro).entries|) == 0 ==> fresh(t)
    ensures t.entries == (if old(|Resolve(mro).entries|) > 0 then old(Resolve(mro).entries) else Scan(mro[0].attrs))
  {
    Initialize(mro);
    t := Resolve(mro);
  }

  /** `cls.keys()`: the member names in table order. */
  method Keys<V>(mro: seq<EnumClass<V>>) returns (names: seq<string>)
    requires Hierarchy(mro)
    modifies mro[0]
    ensures Hierarchy(mro)
    ensures |names| == |Resolve(mro).entries|
    ensures forall i :: 0 <= i < |names| ==> names[i] == Resolve(mro).entries[i].0
    ensures Resolve(mro).entries == (if old(|Resolve(mro).entries|) > 0 then old(Resolve(mro).entries) else Scan(mro[0].attrs))
  {
    Initialize(mro);
    var entries := Resolve(mro).entries;
    names := seq(|entries|, i requires 0 <= i < |entries| => entries[i].0);
  }

  /** `cls.values()`: the member values in table order. */
  method Values<V>(mro: seq<EnumClass<V>>) returns (values: seq<V>)
    requires Hierarchy(mro)
    modifies mro[0]
    ensures Hierarchy(mro)
    ensures |values| == |Resolve(mro).entries|
    ensures forall i :: 0 <= i < |values| ==> values[i] == Resolve(mro).entries[i].1
    ensures Resolve(mro).entries == (if old(|Resolve(mro).entries|) > 0 then old(Resolve(mro).entries) else Scan(mro[0].attrs))
  {
    Initialize(mro);
    var entries := Resolve(mro).entries;
    values := seq(|entries|, i requires 0 <= i < |entries| => entries[i].1);
  }

  /** `iter(cls())`: the (name, value) pairs in table order. */
  method Items<V>(mro: seq<EnumClass<V>>) returns (items: seq<(string, V)>)
    requires Hierarchy(mro)
    modifies mro[0]
    ensures Hierarchy(mro) && items == Resolve(mro).entries
    ensures items == (if old(|Resolve(mro).entries|) > 0 then old(Resolve(mro).entries) else Scan(mro[0].attrs))
  {
    Initialize(mro);
    items := Resolve(mro).entries;
  }

  /** A subclass of a class whose table is filled reads that same table and never scans its own
      attributes; asking twice gives the same table. */
  method SubclassInherits(red: int, blue: int) returns (base: KvTable<int>, sub: KvTable<int>, again: KvTable<int>)
    ensures base == sub == again && base.entries == [("RED", red)]
  {
    var rootKv := new KvTable();
    var root := new EnumClass([], rootKv);
    var color := new EnumClass([Attr("RED", red, false)], null);
    var shade := new EnumClass([Attr("BLUE", blue, false)], null);
    assert [Attr("RED", red, false)][..0] == [];
    assert !Dunder("RED") by {
      assert "RED"[..2] == "RE";
    }
    assert Scan(color.attrs) == [("RED", red)];
    var colorMro := [color, root];
    assert Resolve(colorMro) == rootKv;
    base := Dict(colorMro);
    assert base.entries == [("RED", red)];
    var shadeMro := [shade, color, root];
    assert Resolve(shadeMro) == base by {
      assert shade.kv == null && color.kv == base;
      assert shadeMro[1..] == colorMro;
    }
    sub := Dict(shadeMro);
    again := Dict(shadeMro);
  }

  /** A class without members re-scans on every call and keeps getting a fresh empty table. */
  method EmptyClassRescans() returns (first: KvTable<int>, second: KvTable<int>)
    ensures first != second && first.entries == [] && second.entries == []
  {
    var rootKv := new KvTable();
    var root := new EnumClass([], rootKv);
    var empty := new EnumClass<int>([Attr("helper", 0, true)], null);
    var mro := [empty, root];
    assert Resolve(mro) == rootKv;
    first := Dict(mro);
    assert Resolve(mro) == first;
    second := Dict(mro);
  }
}
