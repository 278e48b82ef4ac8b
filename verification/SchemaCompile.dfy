/** The property table a schema is compiled to, from its `properties` and `required` keywords. */
module SchemaCompile {
  import opened Options
  import opened Schemas

  method FindPropertyIndex(ps: seq<Property>, name: string) returns (index: Option<nat>)
    ensures index == FindProperty(ps, name, 0)
  {
    var i := 0;
    while i < |ps|
      invariant 0 <= i <= |ps|
      invariant FindProperty(ps, name, 0) == FindProperty(ps, name, i)
    {
      if ps[i].name == name {
        return Some(i);
      }
      i := i + 1;
    }
    return None;
  }

  datatype NamedSchema = NamedSchema(name: string, schema: Schema)

  /** The schema the last member of that name gives; a name that is only required accepts everything. */
  function LastSchema(named: seq<NamedSchema>, name: string): Schema {
    if named == [] then TYPELESS
    else if named[|named| - 1].name == name then named[|named| - 1].schema
    else LastSchema(named[..|named| - 1], name)
  }

  lemma {:induction false} LastSchemaIs(named: seq<NamedSchema>, name: string, i: nat)
    requires i <= |named| && forall j | i < j < |named| :: named[j].name != name
    requires i < |named| ==> named[i].name == name
    requires i == |named| ==> forall j | 0 <= j < |named| :: named[j].name != name
    ensures LastSchema(named, name) == if i < |named| then named[i].schema else TYPELESS
    decreases |named|
  {
    if i + 1 < |named| {
      LastSchemaIs(named[..|named| - 1], name, i);
    } else if i == |named| && named != [] {
      LastSchemaIs(named[..|named| - 1], name, |named| - 1);
    }
  }

  predicate Mentioned(named: seq<NamedSchema>, name: string) {
    exists m <- named :: m.name == name
  }

  predicate Declared(ps: seq<Property>, name: string) {
    exists p <- ps :: p.name == name
  }

  method AddUniqueElement(ps: seq<Property>, name: string) returns (r: seq<Property>)
    requires DistinctNames(ps)
    ensures DistinctNames(r) && (r == ps || r == ps + [Property(name, TYPELESS, false)])
    ensures forall n :: Declared(r, n) <==> Declared(ps, n) || n == name
  {
    var i := 0;
    while i < |ps|
      invariant 0 <= i <= |ps|
      invariant forall k | 0 <= k < i :: ps[k].name != name
    {
      if ps[i].name == name {
        assert ps[i] in ps;
        return ps;
      }
      i := i + 1;
    }
    r := ps + [Property(name, TYPELESS, false)];
    forall n ensures Declared(r, n) <==> Declared(ps, n) || n == name {
      if Declared(ps, n) {
        var p :| p in ps && p.name == n;
        assert p in r;
      }
      assert r[|ps|] in r;
    }
  }

  lemma MentionedNext(named: seq<NamedSchema>, i: nat, n: string)
    requires i < |named|
    ensures Mentioned(named[..i + 1], n) <==> Mentioned(named[..i], n) || n == named[i].name
  {
    var next := named[..i + 1];
    assert next == named[..i] + [named[i]];
    if Mentioned(next, n) && n != named[i].name {
      var m :| m in next && m.name == n;
      assert m in named[..i];
    }
    if Mentioned(named[..i], n) {
      var m :| m in named[..i] && m.name == n;
      assert m in next;
    }
    assert next[i] == named[i];
  }

  predicate Blank(ps: seq<Property>) {
    forall p <- ps :: p.schema == TYPELESS && !p.required
  }

  method GatherNames(named: seq<NamedSchema>, required: seq<string>) returns (ps: seq<Property>)
    ensures DistinctNames(ps) && Blank(ps)
    ensures forall n :: Declared(ps, n) <==> Mentioned(named, n) || n in required
  {
    hide Declared;
    ps := [];
    assert forall n :: !Declared([], n) by {
      NothingDeclared();
    }
    for i := 0 to |named|
      invariant DistinctNames(ps) && Blank(ps)
      invariant forall n :: Declared(ps, n) <==> Mentioned(named[..i], n)
    {
      forall n ensures Mentioned(named[..i + 1], n) <==> Mentioned(named[..i], n) || n == named[i].name {
        MentionedNext(named, i, n);
      }
      ps := AddUniqueElement(ps, named[i].name);
    }
    assert named[..|named|] == named;
    for i := 0 to |required|
      invariant DistinctNames(ps) && Blank(ps)
      invariant forall n :: Declared(ps, n) <==> Mentioned(named, n) || n in required[..i]
    {
      assert required[..i + 1] == required[..i] + [required[i]];
      ps := AddUniqueElement(ps, required[i]);
    }
    assert required[..|required|] == required;
  }

  lemma NothingDeclared()
    ensures forall n :: !Declared([], n)
  {
  }

  predicate SameNames(ps: seq<Property>, qs: seq<Property>) {
    |ps| == |qs| && forall k | 0 <= k < |ps| :: ps[k].name == qs[k].name
  }

  method AssignSchemas(before: seq<Property>, named: seq<NamedSchema>) returns (ps: seq<Property>)
    requires DistinctNames(before) && Blank(before)
    ensures SameNames(ps, before)
    ensures forall p <- ps :: p.schema == LastSchema(named, p.name) && !p.required
  {
    ps := before;
    for i := 0 to |named|
      invariant SameNames(ps, before)
      invariant forall k | 0 <= k < |ps| :: ps[k].schema == LastSchema(named[..i], ps[k].name) && !ps[k].required
    {
      assert named[..i + 1][..i] == named[..i];
      var index := FindPropertyIndex(ps, named[i].name);
      if index.Some? {
        ps := ps[index.value := ps[index.value].(schema := named[i].schema)];
      }
    }
    assert named[..|named|] == named;
  }

  method MarkRequired(before: seq<Property>, required: seq<string>) returns (ps: seq<Property>)
    requires DistinctNames(before) && forall p <- before :: !p.required
    ensures SameNames(ps, before)
    ensures forall k | 0 <= k < |ps| :: ps[k] == before[k].(required := before[k].name in required)
  {
    ps := before;
    for i := 0 to |required|
      invariant SameNames(ps, before)
      invariant forall k | 0 <= k < |ps| :: ps[k] == before[k].(required := before[k].name in required[..i])
    {
      assert required[..i + 1] == required[..i] + [required[i]];
      var index := FindPropertyIndex(ps, required[i]);
      if index.Some? {
        ps := ps[index.value := ps[index.value].(required := true)];
      }
    }
    assert required[..|required|] == required;
  }

  lemma SameNamesDeclare(ps: seq<Property>, qs: seq<Property>, n: string)
    requires SameNames(ps, qs)
    ensures DistinctNames(ps) == DistinctNames(qs)
    ensures Declared(ps, n) <==> Declared(qs, n)
  {
    if Declared(ps, n) {
      var k :| 0 <= k < |ps| && ps[k].name == n;
      assert qs[k] in qs;
    }
    if Declared(qs, n) {
      var k :| 0 <= k < |qs| && qs[k].name == n;
      assert ps[k] in ps;
    }
  }

  /**
   * The property table of a schema: one entry per name in `properties` or `required`, the schema of the
   * last declaration of the name, and the flag of exactly the required names.
   */
  method CompileProperties(named: seq<NamedSchema>, required: seq<string>) returns (ps: seq<Property>)
    ensures DistinctNames(ps)
    ensures forall n :: Declared(ps, n) <==> Mentioned(named, n) || n in required
    ensures forall p <- ps :: p.schema == LastSchema(named, p.name) && (p.required <==> p.name in required)
  {
    hide Declared, Mentioned, DistinctNames, LastSchema;
    var blank := GatherNames(named, required);
    var filled := AssignSchemas(blank, named);
    SameNamesDeclare(filled, blank, "");
    ps := MarkRequired(filled, required);
    forall n ensures DistinctNames(ps) && (Declared(ps, n) <==> Declared(blank, n)) {
      SameNamesDeclare(filled, blank, n);
      SameNamesDeclare(ps, filled, n);
    }
  }
}
