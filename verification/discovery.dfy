/**
  Field discovery (`Updater.getInheritedPrivateFields`): the primitive-typed
  declared fields of a class and of its superclasses up to, but not
  including, `java.lang.Object`; derived levels first, and within a level in the order
  `getDeclaredFields` returns them.

  A class is given as its chain: `chain[0]` is the class itself and
  `chain[k+1]` is the superclass of `chain[k]`. The chain may end before
  `java.lang.Object`, as `getSuperclass()` returning `null` does.
*/
module Discovery {
  import opened Reflect

  /** The declared fields of one level as reflective fields, in the order `getDeclaredFields` returns them. */
  function LevelFields(c: Class): (r: seq<Field>)
    ensures |r| == |c.declared|
    ensures forall i :: 0 <= i < |r| ==>
      var d := c.declared[i]; r[i] == Field(c.name, d.name, d.ty, d.isStatic, d.isFinal)
  {
    seq(|c.declared|, i requires 0 <= i < |c.declared| =>
      var d := c.declared[i]; Field(c.name, d.name, d.ty, d.isStatic, d.isFinal))
  }

  /** The fields of `fs` whose type is primitive, in their order in `fs`. */
  function Primitive(fs: seq<Field>): (r: seq<Field>)
    ensures |r| <= |fs|
    ensures forall f :: f in r ==> f in fs && f.ty.IsPrimitive()
  {
    if |fs| == 0 then []
    else (if fs[0].ty.IsPrimitive() then [fs[0]] else []) + Primitive(fs[1..])
  }

  /** The filter drops exactly the reference-typed fields. */
  lemma {:induction false} PrimitiveMembership(fs: seq<Field>, f: Field)
    ensures f in Primitive(fs) <==> f in fs && f.ty.IsPrimitive()
  {
    if |fs| > 0 {
      PrimitiveMembership(fs[1..], f);
      assert fs == [fs[0]] + fs[1..];
    }
  }

  /** The levels the walk visits: the longest prefix of `chain` that does not reach `java.lang.Object`. */
  function Walked(chain: seq<Class>): (r: seq<Class>)
    ensures r <= chain
    ensures forall k :: 0 <= k < |r| ==> r[k].name != ObjectClassName
    ensures |r| < |chain| ==> chain[|r|].name == ObjectClassName
  {
    if |chain| == 0 || chain[0].name == ObjectClassName then []
    else [chain[0]] + Walked(chain[1..])
  }

  /** Every field declared by the given levels, level after level. */
  function AllDeclared(levels: seq<Class>): (r: seq<Field>)
  {
    if |levels| == 0 then [] else LevelFields(levels[0]) + AllDeclared(levels[1..])
  }

  /** The discovered fields, level by level. */
  function Discover(chain: seq<Class>): (r: seq<Field>)
    ensures forall f :: f in r ==> f.ty.IsPrimitive()
  {
    if |chain| == 0 || chain[0].name == ObjectClassName then []
    else Primitive(LevelFields(chain[0])) + Discover(chain[1..])
  }

  lemma {:induction false} PrimitiveDistributes(a: seq<Field>, b: seq<Field>)
    ensures Primitive(a + b) == Primitive(a) + Primitive(b)
  {
    if |a| == 0 {
      assert a + b == b;
    } else {
      assert (a + b)[1..] == a[1..] + b;
      PrimitiveDistributes(a[1..], b);
    }
  }

  /** Discovery equals filtering every declaration of the walked levels, taken in chain order. */
  lemma {:induction false} DiscoverIsFilteredDeclarations(chain: seq<Class>)
    ensures Discover(chain) == Primitive(AllDeclared(Walked(chain)))
  {
    if |chain| == 0 || chain[0].name == ObjectClassName {
    } else {
      DiscoverIsFilteredDeclarations(chain[1..]);
      assert Walked(chain)[1..] == Walked(chain[1..]);
      PrimitiveDistributes(LevelFields(chain[0]), AllDeclared(Walked(chain[1..])));
    }
  }

  lemma {:induction false} AllDeclaredMembership(levels: seq<Class>, f: Field)
    ensures f in AllDeclared(levels) <==> exists k :: 0 <= k < |levels| && f in LevelFields(levels[k])
  {
    if |levels| == 0 {
    } else {
      AllDeclaredMembership(levels[1..], f);
      if f in LevelFields(levels[0]) {
        assert exists k :: 0 <= k < |levels| && f in LevelFields(levels[k]);
      }
      if exists k :: 0 <= k < |levels| && f in LevelFields(levels[k]) {
        var k :| 0 <= k < |levels| && f in LevelFields(levels[k]);
        if k > 0 {
          assert levels[1..][k - 1] == levels[k];
        }
      }
    }
  }

  /**
    A field is discovered exactly when it is primitive-typed and declared at a
    level the walk visits; no reference-typed field is ever discovered.
  */
  lemma DiscoverMembership(chain: seq<Class>, f: Field)
    ensures f in Discover(chain) <==>
      f.ty.IsPrimitive() && exists k :: 0 <= k < |Walked(chain)| && f in LevelFields(Walked(chain)[k])
  {
    DiscoverIsFilteredDeclarations(chain);
    PrimitiveMembership(AllDeclared(Walked(chain)), f);
    AllDeclaredMembership(Walked(chain), f);
  }

  /**
    Derived levels come first: for any `k` levels that precede
    `java.lang.Object`, their fields are a prefix of the result, followed by
    the fields of the remaining levels.
  */
  lemma {:induction false} DiscoverDerivedFirst(chain: seq<Class>, k: nat)
    requires k <= |chain|
    requires forall j :: 0 <= j < k ==> chain[j].name != ObjectClassName
    ensures Discover(chain) == Discover(chain[..k]) + Discover(chain[k..])
  {
    if k == 0 {
      assert chain[k..] == chain;
      assert Discover(chain[..k]) == [];
    } else {
      var head := Primitive(LevelFields(chain[0]));
      var tail := chain[1..];
      assert forall j :: 0 <= j < k - 1 ==> tail[j] == chain[j + 1];
      DiscoverDerivedFirst(tail, k - 1);
      var prefix := chain[..k];
      assert prefix[0] == chain[0] && prefix[1..] == tail[..k - 1];
      assert chain[k..] == tail[k - 1..];
      assert Discover(chain) == head + Discover(tail);
      assert Discover(prefix) == head + Discover(prefix[1..]);
      assert Discover(tail) == Discover(tail[..k - 1]) + Discover(tail[k - 1..]);
    }
  }

  /** The inner Java loop: keep the primitive fields of one level, in their order. */
  method KeepPrimitive(temp: seq<Field>) returns (added: seq<Field>)
    ensures added == Primitive(temp)
    ensures forall f :: f in added ==> f in temp && f.ty.IsPrimitive()
  {
    added := [];
    for j := 0 to |temp|
      invariant added == Primitive(temp[..j])
    {
      PrimitiveDistributes(temp[..j], [temp[j]]);
      assert temp[..j + 1] == temp[..j] + [temp[j]];
      if temp[j].ty.IsPrimitive() {
        added := added + [temp[j]];
      }
    }
    assert temp[..|temp|] == temp;
  }

  /** The outer Java loop: walk the superclass chain and collect the primitive fields of each level. */
  method GetInheritedPrivateFields(chain: seq<Class>) returns (result: seq<Field>)
    ensures result == Discover(chain)
    ensures result == Primitive(AllDeclared(Walked(chain)))
  {
    result := [];
    var i := 0;
    while i < |chain| && chain[i].name != ObjectClassName
      invariant 0 <= i <= |chain|
      invariant Discover(chain) == result + Discover(chain[i..])
    {
      var added := KeepPrimitive(LevelFields(chain[i]));
      assert chain[i..][1..] == chain[i + 1..];
      result := result + added;
      i := i + 1;
    }
    DiscoverIsFilteredDeclarations(chain);
  }
}
