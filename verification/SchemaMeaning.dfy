/** What a schema says of a value, keyword by keyword, and that the streaming verdict is exactly that. */
module SchemaMeaning {
  import opened Options
  import opened Json
  import opened Schemas
  import opened SchemaMachine
  import opened SchemaVerdict
  import Grammar
  import Document
  import SchemaStream

  // ---------------------------------------------------------------- the keywords

  /** Every keyword in its own words: nothing here is shared with the validator. */
  ghost predicate Satisfies(s: Schema, v: Value)
    decreases v, s, 1
  {
    && TypeNamed(s.types, v)
    && SatisfiesAll(s.allOf, v)
    && (s.anyOf != [] ==> SatisfiesAny(s.anyOf, v))
    && (s.oneOf != [] ==> SatisfiesOne(s.oneOf, v))
    && (s.negated.Some? ==> !Satisfies(s.negated.value, v))
    && (v.Integer? ==> NumberAllowed(s.bounds, v.n))
    && (v.Double? ==> v.literal !in s.bounds.refused)
    && (v.Array? ==> ElementsAllowed(s, v.elements))
    && (v.Object? ==> MembersAllowed(s, v.members))
  }

  ghost predicate SatisfiesAll(ss: seq<Schema>, v: Value)
    decreases v, ss, 0
  {
    forall i | 0 <= i < |ss| :: Satisfies(ss[i], v)
  }

  ghost predicate SatisfiesAny(ss: seq<Schema>, v: Value)
    decreases v, ss, 0
  {
    exists i | 0 <= i < |ss| :: Satisfies(ss[i], v)
  }

  /** One of the schemas, and no other. */
  ghost predicate SatisfiesOne(ss: seq<Schema>, v: Value)
    decreases v, ss, 0
  {
    exists i | 0 <= i < |ss| :: Satisfies(ss[i], v) && forall j | 0 <= j < |ss| && j != i :: !Satisfies(ss[j], v)
  }

  predicate TypeNamed(types: set<TypeName>, v: Value) {
    match v
    case Null => NullType in types
    case Bool(_) => BooleanType in types
    case Integer(_) => IntegerType in types || NumberType in types
    case Double(_) => NumberType in types
    case Text(_) => StringType in types
    case Array(_) => ArrayType in types
    case Object(_) => ObjectType in types
  }

  /** minimum, maximum and multipleOf, on an integer. */
  ghost predicate NumberAllowed(b: Bounds, n: int) {
    && (b.minimum.Some? && b.minimum.value.Whole? ==>
          b.minimum.value.n < n || (b.minimum.value.n == n && !b.exclusiveMinimum))
    && (b.maximum.Some? && b.maximum.value.Whole? ==>
          n < b.maximum.value.n || (n == b.maximum.value.n && !b.exclusiveMaximum))
    && (b.multipleOf.Some? && b.multipleOf.value.WholeDivisor? ==> exists q: int :: q * b.multipleOf.value.n == n)
    && (b.minimum.Some? && b.minimum.value.Floating? ==> n !in b.minimum.value.refused)
    && (b.maximum.Some? && b.maximum.value.Floating? ==> n !in b.maximum.value.refused)
    && (b.multipleOf.Some? && b.multipleOf.value.FloatingDivisor? ==> n !in b.multipleOf.value.refused)
  }

  /** minItems, maxItems, items and additionalItems. */
  ghost predicate ElementsAllowed(s: Schema, es: seq<Value>)
    decreases es, s, 0
  {
    && s.minItems <= |es| && (s.maxItems.Some? ==> |es| <= s.maxItems.value)
    && forall k | 0 <= k < |es| :: ElementAllowed(s, es[k], k)
  }

  /** An element: by the list's schema, or by the one at its position in the tuple, or as an additional item. */
  ghost predicate ElementAllowed(s: Schema, e: Value, k: nat)
    decreases e, s, 2
  {
    && (s.items.ListItems? ==> Satisfies(s.items.item, e))
    && (s.items.TupleItems? && k < |s.items.tuple| ==> Satisfies(s.items.tuple[k], e))
    && (s.items.TupleItems? && 0 < |s.items.tuple| <= k ==>
          if s.additionalItemsSchema.Some? then Satisfies(s.additionalItemsSchema.value, e) else s.additionalItems)
  }

  /** minProperties, maxProperties, required, properties and additionalProperties. */
  ghost predicate MembersAllowed(s: Schema, ms: seq<Member>)
    decreases ms, s, 0
  {
    && s.minProperties <= |ms| && (s.maxProperties.Some? ==> |ms| <= s.maxProperties.value)
    && (forall p <- s.properties | p.required && p.schema.defaultLength == 0 :: exists m <- ms :: m.name == p.name)
    && forall k | 0 <= k < |ms| :: MemberAllowed(s, ms[k])
  }

  /** A member: by the schema of every property of its name, or as an additional one. */
  ghost predicate MemberAllowed(s: Schema, m: Member)
    decreases m, s, 2
  {
    && (forall i | 0 <= i < |s.properties| && s.properties[i].name == m.name :: Satisfies(s.properties[i].schema, m.value))
    && ((forall p <- s.properties :: p.name != m.name) ==>
          if s.additionalPropertiesSchema.Some? then Satisfies(s.additionalPropertiesSchema.value, m.value)
          else s.additionalProperties)
  }

  // ---------------------------------------------------------------- numbers and the typeless schema

  lemma BoundsSaid(b: Bounds, n: int)
    ensures WithinBounds(b, n) <==> NumberAllowed(b, n)
  {
    if b.multipleOf.Some? && b.multipleOf.value.WholeDivisor? {
      DividesMeans(n, b.multipleOf.value.n);
    }
  }

  lemma DividesMeans(n: int, d: int)
    requires d > 0
    ensures n % d == 0 <==> exists q: int :: q * d == n
  {
    if n % d == 0 {
      assert n / d * d == n;
    }
    if q: int :| q * d == n {
      MultipleIsZero(q, d);
    }
  }

  lemma {:induction false} TypelessMeets(v: Value)
    ensures Meets(TYPELESS, v)
    decreases v, 1
  {
    match v
    case Array(es) => TypelessItems(es, 0); ArrayShape(TYPELESS, v);
    case Object(ms) => TypelessMembers(ms); ObjectShape(TYPELESS, v);
    case _ =>
  }

  lemma {:induction false} TypelessItems(es: seq<Value>, index: nat)
    ensures MeetsItems(TYPELESS, es, index)
    decreases es, 0
  {
    hide Meets;
    if es != [] {
      TypelessMeets(es[0]);
      TypelessItems(es[1..], index + 1);
    }
  }

  lemma {:induction false} TypelessMembers(ms: seq<Member>)
    ensures MeetsMembers(TYPELESS, ms)
    decreases ms, 0
  {
    hide Meets;
    if ms != [] {
      TypelessMeets(ms[0].value);
      TypelessMembers(ms[1..]);
    }
  }

  // ---------------------------------------------------------------- the equivalence

  /** Main result: for compiled schemas the recursive meaning says exactly what the keywords say. */
  lemma {:induction false} MeetsSaysKeywords(s: Schema, v: Value)
    requires WellFormed(s)
    ensures Meets(s, v) <==> Satisfies(s, v)
    decreases v, s, 1
  {
    hide WellFormed, MeetsAll, MeetsAny, MeetsOne, MeetsShape, TypeNamed, NumberAllowed, ElementsAllowed, MembersAllowed;
    hide SatisfiesAll, SatisfiesAny, SatisfiesOne;
    PartsWellFormed(s);
    ShapeSaid(s, v);
    AllSaid(s.allOf, v);
    AnySaid(s.anyOf, v);
    OneSaid(s.oneOf, v);
    if s.negated.Some? {
      MeetsSaysKeywords(s.negated.value, v);
    }
  }

  lemma PartsWellFormed(s: Schema)
    requires WellFormed(s)
    ensures forall i | 0 <= i < |s.allOf| :: WellFormed(s.allOf[i])
    ensures forall i | 0 <= i < |s.anyOf| :: WellFormed(s.anyOf[i])
    ensures forall i | 0 <= i < |s.oneOf| :: WellFormed(s.oneOf[i])
    ensures forall i | 0 <= i < |s.properties| :: WellFormed(s.properties[i].schema)
    ensures s.negated.Some? ==> WellFormed(s.negated.value)
    ensures s.additionalPropertiesSchema.Some? ==> WellFormed(s.additionalPropertiesSchema.value)
    ensures s.items.ListItems? ==> WellFormed(s.items.item)
    ensures s.items.TupleItems? ==> forall i | 0 <= i < |s.items.tuple| :: WellFormed(s.items.tuple[i])
    ensures s.additionalItemsSchema.Some? ==> WellFormed(s.additionalItemsSchema.value)
    ensures DistinctNames(s.properties)
  {
  }

  lemma {:induction false} EachSaid(ss: seq<Schema>, v: Value)
    requires forall i | 0 <= i < |ss| :: WellFormed(ss[i])
    ensures forall i | 0 <= i < |ss| :: Meets(ss[i], v) <==> Satisfies(ss[i], v)
    decreases v, ss, 0
  {
    hide WellFormed, Meets, Satisfies;
    forall i | 0 <= i < |ss| ensures Meets(ss[i], v) <==> Satisfies(ss[i], v) {
      MeetsSaysKeywords(ss[i], v);
    }
  }

  lemma {:induction false} AllSaid(ss: seq<Schema>, v: Value)
    requires forall i | 0 <= i < |ss| :: WellFormed(ss[i])
    ensures MeetsAll(ss, v) <==> SatisfiesAll(ss, v)
    decreases v, ss, 1
  {
    hide WellFormed, Meets, Satisfies;
    EachSaid(ss, v);
  }

  lemma {:induction false} AnySaid(ss: seq<Schema>, v: Value)
    requires forall i | 0 <= i < |ss| :: WellFormed(ss[i])
    ensures MeetsAny(ss, v) <==> SatisfiesAny(ss, v)
    decreases v, ss, 1
  {
    hide WellFormed, Meets, Satisfies;
    EachSaid(ss, v);
  }

  /** Index `i` is the only one that is satisfied. */
  ghost predicate Single(ss: seq<Schema>, v: Value, i: nat) {
    i < |ss| && Satisfies(ss[i], v) && forall j | 0 <= j < |ss| && j != i :: !Satisfies(ss[j], v)
  }

  lemma SingleSaid(ss: seq<Schema>, v: Value, i: nat)
    requires forall j | 0 <= j < |ss| :: Meets(ss[j], v) <==> Satisfies(ss[j], v)
    ensures OnlyMet(ss, v, i) <==> Single(ss, v, i)
  {
    hide Meets, Satisfies;
  }

  lemma SingleExists(ss: seq<Schema>, v: Value)
    ensures SatisfiesOne(ss, v) <==> exists i: nat :: Single(ss, v, i)
  {
    hide Satisfies;
    if SatisfiesOne(ss, v) {
      var i :| 0 <= i < |ss| && Satisfies(ss[i], v) && forall j | 0 <= j < |ss| && j != i :: !Satisfies(ss[j], v);
      assert Single(ss, v, i);
    }
  }

  lemma {:induction false} OneSaid(ss: seq<Schema>, v: Value)
    requires forall i | 0 <= i < |ss| :: WellFormed(ss[i])
    ensures MeetsOne(ss, v) <==> SatisfiesOne(ss, v)
    decreases v, ss, 1
  {
    hide *;
    EachSaid(ss, v);
    MeetsOneOnly(ss, v);
    SingleExists(ss, v);
    forall i: nat ensures OnlyMet(ss, v, i) <==> Single(ss, v, i) {
      SingleSaid(ss, v, i);
    }
  }

  lemma {:induction false} ShapeSaid(s: Schema, v: Value)
    requires WellFormed(s)
    ensures MeetsShape(s, v) <==>
              && TypeNamed(s.types, v)
              && (v.Integer? ==> NumberAllowed(s.bounds, v.n))
              && (v.Double? ==> v.literal !in s.bounds.refused)
              && (v.Array? ==> ElementsAllowed(s, v.elements))
              && (v.Object? ==> MembersAllowed(s, v.members))
    decreases v, s, 0
  {
    hide WellFormed, MeetsItems, MeetsMembers, RequiredPresent, WithinBounds, NumberAllowed, ElementAllowed, MemberAllowed;
    match v
    case Integer(n) => BoundsSaid(s.bounds, n);
    case Array(es) => ItemsSaid(s, es, 0);
    case Object(ms) =>
      MembersSaid(s, ms);
      RequiredSaid(s, ms);
    case _ =>
  }

  lemma RequiredSaid(s: Schema, ms: seq<Member>)
    ensures RequiredPresent(s, ms) <==>
              forall p <- s.properties | p.required && p.schema.defaultLength == 0 :: exists m <- ms :: m.name == p.name
  {
  }

  lemma {:induction false} ItemsSaid(s: Schema, es: seq<Value>, from: nat)
    requires WellFormed(s)
    ensures MeetsItems(s, es, from) <==> forall k | 0 <= k < |es| :: ElementAllowed(s, es[k], from + k)
    decreases es, s, 0
  {
    hide WellFormed, Meets, ElementAllowed, ItemSchema;
    if es != [] {
      ItemSaid(s, es[0], from);
      ItemsSaid(s, es[1..], from + 1);
      ShiftElements(s, es, from);
    }
  }

  lemma ShiftElements(s: Schema, es: seq<Value>, from: nat)
    requires es != []
    ensures (forall k | 0 <= k < |es| :: ElementAllowed(s, es[k], from + k)) <==>
              && ElementAllowed(s, es[0], from)
              && forall k | 0 <= k < |es[1..]| :: ElementAllowed(s, es[1..][k], from + 1 + k)
  {
    hide ElementAllowed;
    if ElementAllowed(s, es[0], from) && forall k | 0 <= k < |es[1..]| :: ElementAllowed(s, es[1..][k], from + 1 + k) {
      forall k | 0 <= k < |es| ensures ElementAllowed(s, es[k], from + k) {
        if k > 0 {
          assert ElementAllowed(s, es[1..][k - 1], from + 1 + (k - 1));
        }
      }
    }
    if forall k | 0 <= k < |es| :: ElementAllowed(s, es[k], from + k) {
      assert ElementAllowed(s, es[0], from + 0);
      forall k | 0 <= k < |es[1..]| ensures ElementAllowed(s, es[1..][k], from + 1 + k) {
        assert ElementAllowed(s, es[k + 1], from + (k + 1));
      }
    }
  }

  lemma {:induction false} ItemSaid(s: Schema, e: Value, k: nat)
    requires WellFormed(s)
    ensures ItemSchema(s, k).Some? && Meets(ItemSchema(s, k).value, e) <==> ElementAllowed(s, e, k)
    decreases e, s, 3
  {
    hide WellFormed, Meets, Satisfies;
    PartsWellFormed(s);
    TypelessMeets(e);
    if s.items.ListItems? {
      MeetsSaysKeywords(s.items.item, e);
    } else if s.items.TupleItems? {
      if k < |s.items.tuple| {
        MeetsSaysKeywords(s.items.tuple[k], e);
      } else if s.additionalItemsSchema.Some? {
        MeetsSaysKeywords(s.additionalItemsSchema.value, e);
      }
    }
  }

  lemma {:induction false} MembersSaid(s: Schema, ms: seq<Member>)
    requires WellFormed(s)
    ensures MeetsMembers(s, ms) <==> forall k | 0 <= k < |ms| :: MemberAllowed(s, ms[k])
    decreases ms, s, 0
  {
    hide WellFormed, Meets, MemberAllowed, MemberSchema;
    if ms != [] {
      MemberSaid(s, ms[0]);
      MembersSaid(s, ms[1..]);
      if MeetsMembers(s, ms) {
        forall k | 0 <= k < |ms| ensures MemberAllowed(s, ms[k]) {
          if k > 0 {
            assert ms[1..][k - 1] == ms[k];
          }
        }
      }
    }
  }

  lemma {:induction false} MemberSaid(s: Schema, m: Member)
    requires WellFormed(s)
    ensures MemberSchema(s, m.name).Some? && Meets(MemberSchema(s, m.name).value, m.value) <==> MemberAllowed(s, m)
    decreases m, s, 3
  {
    hide WellFormed, Meets, Satisfies;
    PartsWellFormed(s);
    TypelessMeets(m.value);
    var index := FindProperty(s.properties, m.name, 0);
    if index.Some? {
      assert s.properties[index.value] in s.properties;
      MeetsSaysKeywords(s.properties[index.value].schema, m.value);
      OnlyIndex(s.properties, m.name, index.value);
    } else {
      if s.additionalPropertiesSchema.Some? {
        MeetsSaysKeywords(s.additionalPropertiesSchema.value, m.value);
      }
    }
  }

  lemma OnlyIndex(ps: seq<Property>, name: string, i: nat)
    requires DistinctNames(ps) && i < |ps| && ps[i].name == name
    ensures forall j | 0 <= j < |ps| && ps[j].name == name :: j == i
  {
    forall j | 0 <= j < |ps| && ps[j].name == name ensures j == i {
      assert !(j < i) && !(i < j);
    }
  }

  // ---------------------------------------------------------------- the verdict

  /** Main result: a fresh validator fed the events of a value ends valid exactly when every keyword is satisfied. */
  lemma VerdictSaysKeywords(s: Schema, v: Value)
    requires WellFormed(s) && Sized(v)
    ensures FeedAll(Started(s), Events(v)).valid <==> Satisfies(s, v)
  {
    hide WellFormed, Meets, Satisfies, FeedAll;
    StreamingVerdict(s, v);
    MeetsSaysKeywords(s, v);
  }

  /** And so when the reader feeds it any accepted text: the document is what counts. */
  lemma ReaderSaysKeywords(cfg: Grammar.Config, schema: Schema, text: string)
    requires WellFormed(schema)
    requires Grammar.ParseText(cfg, text).Some?
    ensures Document.ParseDocument(cfg, text).Some?
    ensures FeedAll(Started(schema), Grammar.ParseText(cfg, text).value).valid
        <==> Satisfies(schema, Document.ParseDocument(cfg, text).value)
  {
    hide WellFormed, Meets, Satisfies, FeedAll;
    SchemaStream.ReaderVerdict(cfg, schema, text);
    MeetsSaysKeywords(schema, Document.ParseDocument(cfg, text).value);
  }
}
