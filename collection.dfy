/** Collection nodes (collection.rs): bundles of node handles with no numeric meaning. */
module Collections {
  import opened Outcomes

  /** A handle is an index into the node arena; it stands for `*const Node` and `Rc<Node>`. */
  type Handle = nat

  /** The struct's field map is `elements` in the source; here it is `fields`. */
  datatype Collection =
    | Array(elements: seq<Handle>)
    | Struct(name: string, nameOrder: seq<string>, fields: map<string, Handle>)
    | Tuple(elements: seq<Handle>)

  /** One item fed to the hasher by `impl Hash for Struct`. */
  datatype HashItem = Name(name: string) | Field(field: string, handle: Option<Handle>)

  /** `impl Hash for Struct`: the name, then every field of `name_order` with its lookup. */
  function StructHashFeed(name: string, nameOrder: seq<string>, fields: map<string, Handle>): seq<HashItem> {
    [Name(name)] + seq(|nameOrder|, i requires 0 <= i < |nameOrder| =>
      Field(nameOrder[i], if nameOrder[i] in fields then Some(fields[nameOrder[i]]) else None))
  }

  /** Two field maps give the same lookup for every name of `nameOrder`. */
  predicate AgreeOn(nameOrder: seq<string>, a: map<string, Handle>, b: map<string, Handle>) {
    forall i :: 0 <= i < |nameOrder| ==>
      (nameOrder[i] in a <==> nameOrder[i] in b) &&
      (nameOrder[i] in a ==> a[nameOrder[i]] == b[nameOrder[i]])
  }

  /** Two structs feed the hasher the same items exactly when they have the same name and
      field order and their field maps agree on the listed names: the hash sees nothing else. */
  lemma HashFeedDetermines(n1: string, o1: seq<string>, f1: map<string, Handle>,
                           n2: string, o2: seq<string>, f2: map<string, Handle>)
    ensures StructHashFeed(n1, o1, f1) == StructHashFeed(n2, o2, f2) <==>
              n1 == n2 && o1 == o2 && AgreeOn(o1, f1, f2)
  {
    var a, b := StructHashFeed(n1, o1, f1), StructHashFeed(n2, o2, f2);
    if a == b {
      assert a[0] == Name(n1) && b[0] == Name(n2);
      assert |o1| + 1 == |a| == |b| == |o2| + 1;
      forall i | 0 <= i < |o1| ensures o1[i] == o2[i] {
        assert a[i + 1] == b[i + 1];
      }
      assert o1 == o2;
      forall i | 0 <= i < |o1|
        ensures (o1[i] in f1 <==> o1[i] in f2) && (o1[i] in f1 ==> f1[o1[i]] == f2[o1[i]])
      {
        assert a[i + 1] == b[i + 1];
      }
    }
    if n1 == n2 && o1 == o2 && AgreeOn(o1, f1, f2) {
      assert |a| == |o1| + 1 == |b|;
      forall k | 0 <= k < |a| ensures a[k] == b[k] {
        if k > 0 {
          assert a[k] == Field(o1[k - 1], if o1[k - 1] in f1 then Some(f1[o1[k - 1]]) else None);
          assert b[k] == Field(o2[k - 1], if o2[k - 1] in f2 then Some(f2[o2[k - 1]]) else None);
        }
      }
      assert a == b;
    }
  }

  /** The derived equality of arrays and tuples is element-wise and order-sensitive. */
  lemma SequenceEqualityIsElementwise(a: seq<Handle>, b: seq<Handle>)
    ensures Array(a) == Array(b) <==> |a| == |b| && forall i :: 0 <= i < |a| ==> a[i] == b[i]
    ensures Tuple(a) == Tuple(b) <==> |a| == |b| && forall i :: 0 <= i < |a| ==> a[i] == b[i]
  {
    if |a| == |b| && forall i :: 0 <= i < |a| ==> a[i] == b[i] {
      assert a == b;
    }
  }

  /** The variant tag is part of equality: an array is never a tuple. */
  lemma ArrayIsNotTuple(a: seq<Handle>, b: seq<Handle>)
    ensures Array(a) != Tuple(b)
  {
  }

  /** Struct equality compares the name, the field order and the whole field map. */
  lemma StructEquality(n1: string, o1: seq<string>, f1: map<string, Handle>,
                       n2: string, o2: seq<string>, f2: map<string, Handle>)
    ensures Struct(n1, o1, f1) == Struct(n2, o2, f2) <==> n1 == n2 && o1 == o2 && f1 == f2
  {
  }

  /** Equal structs hash equally, so the hand-written hash agrees with the derived equality. */
  lemma EqualStructsHashEqually(a: Collection, b: Collection)
    requires a.Struct? && a == b
    ensures StructHashFeed(a.name, a.nameOrder, a.fields) == StructHashFeed(b.name, b.nameOrder, b.fields)
  {
  }

  /** The hash reads only the fields listed in `name_order`: structs that differ in an
      unlisted field are unequal but hash alike (allowed, since only equal ⇒ same hash is required). */
  lemma HashIgnoresUnlistedFields(name: string, nameOrder: seq<string>, fields: map<string, Handle>,
                                  extra: string, h: Handle)
    requires extra !in nameOrder && extra !in fields
    ensures StructHashFeed(name, nameOrder, fields[extra := h]) == StructHashFeed(name, nameOrder, fields)
    ensures Struct(name, nameOrder, fields[extra := h]) != Struct(name, nameOrder, fields)
  {
    assert extra in fields[extra := h];
  }
}
