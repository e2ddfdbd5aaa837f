/**
 * The SCF object protocol of scf/scf.h: packed interface versions and their
 * compatibility test, and the reference counting, parent forwarding and
 * interface lookup that the `CONSTRUCT_*`, `IMPLEMENT_*` and
 * `IMPLEMENTS_*` macros expand to.
 *
 * Versions are `int` in the source and are only combined with shifts, masks
 * and comparisons of the non-negative masked parts, so a version is
 * modelled as its 32-bit pattern, a number below 2^32: masking with
 * `0xff000000` keeps `v / 2^24` (the major number) and masking with
 * `0x00ffffff` keeps `v % 2^24` (minor and micro together).
 */
module Scf {

  import opened Wrappers

  type Version = v: int | 0 <= v < 0x1_0000_0000

  const MAJOR_UNIT: int := 0x100_0000
  const MINOR_UNIT: int := 0x1_0000

  /**
   * `SCF_CONSTRUCT_VERSION(Major, Minor, Micro)` for parts that fit their
   * fields (8, 8 and 16 bits), where the bitwise or of the shifted parts is
   * their sum.
   */
  function ConstructVersion(major: nat, minor: nat, micro: nat): (v: Version)
    requires major < 0x100 && minor < 0x100 && micro < 0x1_0000
  {
    major * MAJOR_UNIT + minor * MINOR_UNIT + micro
  }

  /** The three parts are recovered by shifting and masking. */
  lemma VersionPartsRecovered(major: nat, minor: nat, micro: nat)
    requires major < 0x100 && minor < 0x100 && micro < 0x1_0000
    ensures var v := ConstructVersion(major, minor, micro);
      v / MAJOR_UNIT == major && (v / MINOR_UNIT) % 0x100 == minor && v % MINOR_UNIT == micro
  {
    var v := ConstructVersion(major, minor, micro);
    assert v == (major * 0x100 + minor) * MINOR_UNIT + micro;
    assert v / MINOR_UNIT == major * 0x100 + minor;
    assert v == major * MAJOR_UNIT + (minor * MINOR_UNIT + micro);
  }

  /**
   * `scfCompatibleVersion(iVersion, iItfVersion)`: the requested version is
   * served by an interface of the same major number whose minor and micro
   * numbers, taken together, are at least the requested ones.
   */
  predicate CompatibleVersion(requested: Version, itf: Version)
  {
    requested / MAJOR_UNIT == itf / MAJOR_UNIT && requested % MAJOR_UNIT <= itf % MAJOR_UNIT
  }

  lemma CompatibleReflexive(v: Version)
    ensures CompatibleVersion(v, v)
  {
  }

  lemma CompatibleTransitive(a: Version, b: Version, c: Version)
    requires CompatibleVersion(a, b) && CompatibleVersion(b, c)
    ensures CompatibleVersion(a, c)
  {
  }

  /** For packed versions: equal majors and a lexicographic `(minor, micro)` order. */
  lemma PackedCompatibility(major: nat, minor: nat, micro: nat, major2: nat, minor2: nat, micro2: nat)
    requires major < 0x100 && minor < 0x100 && micro < 0x1_0000
    requires major2 < 0x100 && minor2 < 0x100 && micro2 < 0x1_0000
    ensures CompatibleVersion(ConstructVersion(major, minor, micro), ConstructVersion(major2, minor2, micro2))
            <==> major == major2 && (minor < minor2 || (minor == minor2 && micro <= micro2))
  {
    SplitVersion(major, minor, micro);
    SplitVersion(major2, minor2, micro2);
  }

  lemma SplitVersion(major: nat, minor: nat, micro: nat)
    requires major < 0x100 && minor < 0x100 && micro < 0x1_0000
    ensures var v := ConstructVersion(major, minor, micro);
      v / MAJOR_UNIT == major && v % MAJOR_UNIT == minor * MINOR_UNIT + micro
  {
    var v := ConstructVersion(major, minor, micro);
    assert v == major * MAJOR_UNIT + (minor * MINOR_UNIT + micro);
  }

  /** Different major numbers are never compatible, whatever the minor and micro numbers. */
  lemma DifferentMajorsIncompatible(major: nat, minor: nat, micro: nat, major2: nat, minor2: nat, micro2: nat)
    requires major < 0x100 && minor < 0x100 && micro < 0x1_0000
    requires major2 < 0x100 && minor2 < 0x100 && micro2 < 0x1_0000
    requires major != major2
    ensures !CompatibleVersion(ConstructVersion(major, minor, micro), ConstructVersion(major2, minor2, micro2))
  {
    PackedCompatibility(major, minor, micro, major2, minor2, micro2);
  }

  /** Who answers for an interface: the object itself or one of its embedded objects. */
  datatype Implementer = Self | Embedded(obj: ScfObject)

  /** One `IMPLEMENTS_INTERFACE` / `IMPLEMENTS_EMBEDDED_INTERFACE` line of a `QueryInterface` body. */
  datatype InterfaceEntry = InterfaceEntry(id: string, version: Version, implementer: Implementer)

  /** The test `IMPLEMENTS_INTERFACE_COMMON` makes before answering for `entry`. */
  predicate Answers(entry: InterfaceEntry, id: string, version: Version)
  {
    CompatibleVersion(version, entry.version) && entry.id == id
  }

  /** The first entry, in listing order, that answers the request. */
  function FirstAnswer(entries: seq<InterfaceEntry>, id: string, version: Version): (r: Option<nat>)
    ensures r.Some? ==> r.value < |entries| && Answers(entries[r.value], id, version)
                        && forall j :: 0 <= j < r.value ==> !Answers(entries[j], id, version)
    ensures r.None? ==> forall j :: 0 <= j < |entries| ==> !Answers(entries[j], id, version)
  {
    if entries == [] then None
    else if Answers(entries[0], id, version) then Some(0)
    else match FirstAnswer(entries[1..], id, version)
         case None => None
         case Some(k) => Some(k + 1)
  }

  /**
   * An object with the `DECLARE_IBASE` / `DECLARE_EMBEDDED_IBASE` fields.
   * The parent is fixed by the construction macros; `embedded` selects the
   * `IMPLEMENT_EMBEDDED_IBASE` variant, whose `DecRef` never deletes;
   * `deleted` records `delete this`.
   */
  class ScfObject {
    var scfRefCount: int
    var deleted: bool
    const scfParent: ScfObject?
    const embedded: bool
    var interfaces: seq<InterfaceEntry>

    /** The parent, its parent, and so on. */
    ghost const Ancestors: seq<ScfObject>

    ghost function Chain(): seq<ScfObject>
    {
      [this] + Ancestors
    }

    /** `Ancestors` is the parent chain, each ancestor knowing its own chain. */
    ghost predicate Linked()
      decreases |Ancestors|
    {
      if scfParent == null then Ancestors == []
      else Ancestors != [] && scfParent == Ancestors[0] && scfParent.Ancestors == Ancestors[1..]
           && scfParent.Linked()
    }

    /** `obj` is an embedded object of `outer`, as `CONSTRUCT_EMBEDDED_IBASE` leaves it. */
    static ghost predicate EmbeddedIn(obj: ScfObject, outer: ScfObject)
    {
      obj.embedded && obj.scfParent == outer && obj.Ancestors == outer.Chain()
    }

    /** Linked, and every embedded implementer listed along the chain belongs to the object listing it. */
    ghost predicate Valid()
      reads this`interfaces, Ancestors`interfaces
    {
      Linked()
      && forall o, e :: o in Chain() && e in o.interfaces && e.implementer.Embedded? ==>
           EmbeddedIn(e.implementer.obj, o)
    }

    /** The object that answers for `e` when `this` lists it. */
    function Target(e: InterfaceEntry): ScfObject
    {
      if e.implementer.Self? then this else e.implementer.obj
    }

    /** Every object a query may touch: the chain and the embedded objects its tables list. */
    ghost function Footprint(): set<ScfObject>
      reads this`interfaces, Ancestors`interfaces
    {
      (set o | o in Chain())
      + (set o, e | o in Chain() && e in o.interfaces && e.implementer.Embedded? :: e.implementer.obj)
    }

    ghost predicate Live()
      reads this`deleted, Ancestors`deleted
    {
      forall o :: o in Chain() ==> !o.deleted
    }

    /** No object is its own ancestor, and every ancestor is linked to its own ancestors. */
    lemma {:induction false} AncestorsLinked()
      requires Linked()
      ensures this !in Ancestors
      ensures forall k :: 0 <= k < |Ancestors| ==> Ancestors[k].Ancestors == Ancestors[k + 1..] && Ancestors[k].Linked()
      decreases |Ancestors|
    {
      if scfParent != null {
        scfParent.AncestorsLinked();
        forall k | 0 < k < |Ancestors|
          ensures Ancestors[k] == scfParent.Ancestors[k - 1]
        {
        }
      }
    }

    /** `CONSTRUCT_IBASE(parent)`: one reference held by the creator, and one more on the parent. */
    constructor (parent: ScfObject?)
      requires parent != null ==> parent.Valid() && parent.Live()
      modifies (if parent == null then {} else set o | o in parent.Chain())`scfRefCount
      ensures scfRefCount == 1 && !deleted && scfParent == parent && !embedded && interfaces == []
      ensures Valid() && Live()
      ensures parent != null ==> forall o :: o in parent.Chain() ==>
                o.scfRefCount == old(o.scfRefCount) + 1
    {
      scfRefCount := 1;
      deleted := false;
      scfParent := parent;
      embedded := false;
      interfaces := [];
      Ancestors := if parent == null then [] else parent.Chain();
      new;
      if parent != null {
        assert parent in parent.Chain();
        assert forall o :: o in parent.Ancestors ==> o in parent.Chain();
        parent.IncRef();
      }
    }

    /** `CONSTRUCT_EMBEDDED_IBASE`: no references yet, and the outer object as parent. */
    constructor EmbeddedObject(outer: ScfObject)
      requires outer.Linked()
      ensures scfRefCount == 0 && !deleted && embedded && interfaces == []
      ensures EmbeddedIn(this, outer) && Linked()
    {
      scfRefCount := 0;
      deleted := false;
      scfParent := outer;
      embedded := true;
      interfaces := [];
      Ancestors := outer.Chain();
    }

    /** `IMPLEMENTS_INTERFACE(id)`: the object answers for `id` at `version` itself. */
    method ImplementsInterface(id: string, version: Version)
      requires Valid()
      modifies this
      ensures interfaces == old(interfaces) + [InterfaceEntry(id, version, Self)]
      ensures scfRefCount == old(scfRefCount) && deleted == old(deleted)
      ensures Valid()
    {
      interfaces := interfaces + [InterfaceEntry(id, version, Self)];
      AncestorsLinked();
    }

    /** `IMPLEMENTS_EMBEDDED_INTERFACE(id)`: the embedded object `obj` answers for `id` at `version`. */
    method ImplementsEmbeddedInterface(id: string, version: Version, obj: ScfObject)
      requires Valid() && EmbeddedIn(obj, this)
      modifies this
      ensures interfaces == old(interfaces) + [InterfaceEntry(id, version, Embedded(obj))]
      ensures scfRefCount == old(scfRefCount) && deleted == old(deleted)
      ensures Valid()
    {
      interfaces := interfaces + [InterfaceEntry(id, version, Embedded(obj))];
      AncestorsLinked();
    }

    /** `IncRef`: one more reference on this object and, forwarded, on each of its ancestors. */
    method IncRef()
      requires Linked() && Live()
      modifies this`scfRefCount, Ancestors`scfRefCount
      ensures forall o :: o in Chain() ==> o.scfRefCount == old(o.scfRefCount) + 1
      decreases |Ancestors|
    {
      AncestorsLinked();
      if scfParent != null {
        scfParent.IncRef();
      }
      scfRefCount := scfRefCount + 1;
    }

    /**
     * `DecRef`: one reference fewer on this object and each ancestor; an
     * object left with no reference is deleted unless it is embedded (its
     * storage belongs to the outer object).
     */
    method DecRef()
      requires Linked() && Live()
      modifies this`scfRefCount, this`deleted, Ancestors`scfRefCount, Ancestors`deleted
      ensures forall o :: o in Chain() ==>
                o.scfRefCount == old(o.scfRefCount) - 1
                && (o.deleted <==> !o.embedded && o.scfRefCount <= 0)
      decreases |Ancestors|
    {
      AncestorsLinked();
      scfRefCount := scfRefCount - 1;
      if scfParent != null {
        scfParent.DecRef();
      }
      if !embedded && scfRefCount <= 0 {
        deleted := true;
      }
    }

    /**
     * The object `QueryInterface(id, version)` returns: the implementer of
     * the first entry of this object's table that answers, else what the
     * parent returns, else null.
     */
    ghost function Resolve(id: string, version: Version): ScfObject?
      requires Valid()
      reads this`interfaces, Ancestors`interfaces
      decreases |Ancestors|
    {
      match FirstAnswer(interfaces, id, version)
      case Some(k) => Target(interfaces[k])
      case None =>
        if scfParent == null then null
        else
          ParentValid();
          scfParent.Resolve(id, version)
    }

    /**
     * A query finds nothing exactly when no table along the chain has an
     * entry answering the request; otherwise the answer is the implementer
     * of an answering entry of some object on the chain.
     */
    lemma {:induction false} ResolveNullIffNoAnswer(id: string, version: Version)
      requires Valid()
      ensures Resolve(id, version) == null <==>
                forall o, e :: o in Chain() && e in o.interfaces ==> !Answers(e, id, version)
      ensures Resolve(id, version) != null ==>
                exists o, e :: o in Chain() && e in o.interfaces && Answers(e, id, version)
                               && Resolve(id, version) == o.Target(e)
      decreases |Ancestors|
    {
      var found := FirstAnswer(interfaces, id, version);
      if found.Some? {
        assert interfaces[found.value] in interfaces;
      } else if scfParent != null {
        ParentValid();
        scfParent.ResolveNullIffNoAnswer(id, version);
        assert Chain() == [this] + scfParent.Chain();
        forall e | e in interfaces
          ensures !Answers(e, id, version)
        {
        }
      } else {
        forall e | e in interfaces
          ensures !Answers(e, id, version)
        {
        }
      }
    }

    lemma ParentValid()
      requires Valid() && scfParent != null
      ensures scfParent.Valid()
    {
      assert forall o :: o in scfParent.Chain() ==> o in Chain();
    }

    /**
     * `QueryInterface(iInterfaceID, iVersion)`: the first object along the
     * chain whose table answers, with one more reference on it (and so on
     * its own ancestors); null, touching nothing, when no table answers.
     */
    method QueryInterface(id: string, version: Version) returns (r: ScfObject?)
      requires Valid() && forall o :: o in Footprint() ==> !o.deleted
      modifies Footprint()`scfRefCount
      ensures r == old(Resolve(id, version))
      ensures r != null ==> r in old(Footprint()) && r.Linked()
      ensures r != null ==> forall o :: o in r.Chain() ==> o.scfRefCount == old(o.scfRefCount) + 1
      ensures forall o :: o in old(Footprint()) && (r == null || o !in r.Chain()) ==>
                o.scfRefCount == old(o.scfRefCount)
      decreases |Ancestors|, 1
    {
      var found := FirstAnswer(interfaces, id, version);
      if found.Some? {
        r := Answer(found.value);
      } else if scfParent != null {
        r := Delegate(id, version);
      } else {
        r := null;
      }
    }

    /** The tail of one `IMPLEMENTS_INTERFACE_COMMON`: one more reference on the implementer of entry `k`, which is returned. */
    method Answer(k: nat) returns (r: ScfObject)
      requires Valid() && forall o :: o in Footprint() ==> !o.deleted
      requires k < |interfaces|
      modifies Footprint()`scfRefCount
      ensures r == old(Target(interfaces[k]))
      ensures r in old(Footprint()) && r.Linked()
      ensures forall o :: o in r.Chain() ==> o.scfRefCount == old(o.scfRefCount) + 1
      ensures forall o :: o in old(Footprint()) && o !in r.Chain() ==> o.scfRefCount == old(o.scfRefCount)
    {
      AncestorsLinked();
      var e := interfaces[k];
      r := Target(e);
      assert e in interfaces;
      if e.implementer.Embedded? {
        assert EmbeddedIn(r, this);
        assert forall o :: o in r.Chain() ==> o in Footprint();
      }
      r.IncRef();
    }

    /** `IMPLEMENT_IBASE_END` with a parent: the parent's answer, when no entry of this table answers. */
    method Delegate(id: string, version: Version) returns (r: ScfObject?)
      requires Valid() && forall o :: o in Footprint() ==> !o.deleted
      requires scfParent != null && FirstAnswer(interfaces, id, version).None?
      modifies Footprint()`scfRefCount
      ensures r == old(Resolve(id, version))
      ensures r != null ==> r in old(Footprint()) && r.Linked()
      ensures r != null ==> forall o :: o in r.Chain() ==> o.scfRefCount == old(o.scfRefCount) + 1
      ensures forall o :: o in old(Footprint()) && (r == null || o !in r.Chain()) ==>
                o.scfRefCount == old(o.scfRefCount)
      decreases |Ancestors|, 0
    {
      ParentFootprint();
      r := scfParent.QueryInterface(id, version);
    }

    /** The parent's query touches only objects this object's query may touch. */
    lemma ParentFootprint()
      requires Valid() && scfParent != null
      ensures scfParent.Valid() && scfParent.Footprint() <= Footprint()
    {
      ParentValid();
      AncestorsLinked();
    }
  }

  /**
   * An object constructed under a parent, listing an interface itself,
   * answers a query for it: the new object comes back, with the creator's
   * reference and the query's.
   */
  method ConstructedChildAnswers(parent: ScfObject, id: string, version: Version) returns (r: ScfObject?)
    requires parent.Valid() && forall o :: o in parent.Footprint() ==> !o.deleted
    modifies parent.Footprint()`scfRefCount
    ensures r != null && fresh(r) && r.scfParent == parent && r.scfRefCount == 2
  {
    var child := new ScfObject(parent);
    child.ImplementsInterface(id, version);
    assert FirstAnswer(child.interfaces, id, version) == Some(0);
    r := child.QueryInterface(id, version);
  }
}
