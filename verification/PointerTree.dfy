/** Resolving, creating and erasing values by pointer in a tree. */
module PointerTree {
  import opened Options
  import opened Characters
  import opened Json
  import opened Pointer

  // ---------------------------------------------------------------- containers and their children

  /** The index of the first member of that name. */
  function FindMember(ms: seq<Member>, name: string, from: nat): (r: Option<nat>)
    requires from <= |ms|
    ensures r.Some? ==> from <= r.value < |ms| && ms[r.value].name == name
    ensures r.Some? ==> forall k | from <= k < r.value :: ms[k].name != name
    ensures r.None? ==> forall k | from <= k < |ms| :: ms[k].name != name
    decreases |ms| - from
  {
    if from == |ms| then None
    else if ms[from].name == name then Some(from)
    else FindMember(ms, name, from + 1)
  }

  function Size(v: Value): nat {
    if v.Array? then |v.elements| else if v.Object? then |v.members| else 0
  }

  function Child(v: Value, i: nat): Value
    requires i < Size(v)
  {
    if v.Array? then v.elements[i] else v.members[i].value
  }

  function WithChild(v: Value, i: nat, x: Value): (r: Value)
    requires i < Size(v)
    ensures Size(r) == Size(v) && Child(r, i) == x
    ensures forall k | 0 <= k < Size(v) && k != i :: Child(r, k) == Child(v, k)
  {
    if v.Array? then Array(v.elements[i := x])
    else Object(v.members[i := Member(v.members[i].name, x)])
  }

  /** The container without its child, the others in order. */
  function WithoutChild(v: Value, i: nat): (r: Value)
    requires i < Size(v)
    ensures Size(r) == Size(v) - 1
    ensures forall k | 0 <= k < Size(r) :: Child(r, k) == Child(v, if k < i then k else k + 1)
  {
    if v.Array? then Array(v.elements[..i] + v.elements[i + 1..])
    else Object(v.members[..i] + v.members[i + 1..])
  }

  /** The child a token names. */
  function Locate(v: Value, t: Token): (r: Option<nat>)
    ensures r.Some? ==> r.value < Size(v)
  {
    if v.Object? then FindMember(v.members, CString(t.name), 0)
    else if v.Array? && t.index.Some? && t.index.value < |v.elements| then t.index
    else None
  }

  function Get(v: Value, tokens: seq<Token>): Option<Value>
    decreases |tokens|
  {
    if tokens == [] then Some(v)
    else
      var i := Locate(v, tokens[0]);
      if i.None? then None else Get(Child(v, i.value), tokens[1..])
  }

  // ---------------------------------------------------------------- creation

  /** A value that cannot hold the token is replaced by an empty container that can. */
  function Coerce(v: Value, t: Token): (r: Value)
    ensures r.Array? || r.Object?
    ensures t.index.None? ==> r.Object?
  {
    if t.index.None? then if v.Object? then v else Object([])
    else if v.Array? || v.Object? then v else Array([])
  }

  datatype Ensured = Ensured(container: Value, child: nat, existed: bool)

  function Padded(es: seq<Value>, size: nat): (r: seq<Value>)
    requires |es| <= size
    ensures |r| == size
  {
    es + seq(size - |es|, _ => Null)
  }

  predicate Appends(v: Value, t: Token) {
    v.Array? && t.name == "-"
  }

  /** One step of `Create`: the container made to have the child, and whether it had it. */
  function Ensure(v: Value, t: Token): (r: Ensured)
    ensures r.child < Size(r.container)
  {
    if Appends(v, t) then Ensured(Array(v.elements + [Null]), |v.elements|, false)
    else
      var w := Coerce(v, t);
      if w.Array? then
        if t.index.value >= |w.elements| then Ensured(Array(Padded(w.elements, t.index.value + 1)), t.index.value, false)
        else Ensured(w, t.index.value, true)
      else
        var i := FindMember(w.members, CString(t.name), 0);
        if i.Some? then Ensured(w, i.value, true)
        else Ensured(Object(w.members + [Member(t.name, Null)]), |w.members|, false)
  }

  datatype Created = Created(tree: Value, existed: bool)

  /** `Create`, and with a leaf `Set`: the value at the pointer, made if it is missing. */
  function Create(v: Value, tokens: seq<Token>, leaf: Option<Value>): Created
    decreases |tokens|
  {
    if tokens == [] then Created(if leaf.Some? then leaf.value else v, true)
    else
      var e := Ensure(v, tokens[0]);
      var r := Create(Child(e.container, e.child), tokens[1..], leaf);
      Created(WithChild(e.container, e.child, r.tree), e.existed && r.existed)
  }

  // ---------------------------------------------------------------- erasure

  datatype Erased = Erased(tree: Value, found: bool)

  function Erase(v: Value, tokens: seq<Token>): Erased
    decreases |tokens|
  {
    if tokens == [] then Erased(v, false)
    else
      var i := Locate(v, tokens[0]);
      if i.None? then Erased(v, false)
      else if |tokens| == 1 then Erased(WithoutChild(v, i.value), true)
      else
        var r := Erase(Child(v, i.value), tokens[1..]);
        Erased(WithChild(v, i.value, r.tree), r.found)
  }

  // ---------------------------------------------------------------- positions

  /** A container and the child through which a path goes on. */
  datatype Frame = Frame(container: Value, child: nat)

  predicate Proper(frames: seq<Frame>) {
    forall f <- frames :: f.child < Size(f.container)
  }

  /** The whole tree, given what hangs at the end of the path. */
  function Plug(frames: seq<Frame>, v: Value): Value
    requires Proper(frames)
    decreases |frames|
  {
    if frames == [] then v
    else
      var f := frames[|frames| - 1];
      assert f in frames;
      Plug(frames[..|frames| - 1], WithChild(f.container, f.child, v))
  }

  /** The path a pointer takes through the containers that exist. */
  function Path(v: Value, tokens: seq<Token>): (r: seq<Frame>)
    requires Get(v, tokens).Some?
    ensures Proper(r) && |r| == |tokens|
    decreases |tokens|
  {
    if tokens == [] then []
    else
      var i := Locate(v, tokens[0]).value;
      [Frame(v, i)] + Path(Child(v, i), tokens[1..])
  }

  lemma {:induction false} PlugFirst(f: Frame, frames: seq<Frame>, v: Value)
    requires f.child < Size(f.container) && Proper(frames)
    ensures Proper([f] + frames)
    ensures Plug([f] + frames, v) == WithChild(f.container, f.child, Plug(frames, v))
    decreases |frames|
  {
    hide WithChild;
    var all := [f] + frames;
    if frames == [] {
      assert all[..|all| - 1] == [];
    } else {
      var last := frames[|frames| - 1];
      assert last in frames;
      PlugFirst(f, frames[..|frames| - 1], WithChild(last.container, last.child, v));
      assert all[..|all| - 1] == [f] + frames[..|frames| - 1];
    }
  }

  lemma SetSame(v: Value, i: nat)
    requires i < Size(v)
    ensures WithChild(v, i, Child(v, i)) == v
  {
  }

  /** Replacing a child moves no child and renames none. */
  lemma LocateSet(v: Value, i: nat, x: Value, t: Token)
    requires i < Size(v)
    ensures Locate(WithChild(v, i, x), t) == Locate(v, t)
  {
    hide CString;
    if v.Object? {
      FindSameNames(v.members, WithChild(v, i, x).members, CString(t.name), 0);
    }
  }

  lemma {:induction false} FindSameNames(a: seq<Member>, b: seq<Member>, name: string, from: nat)
    requires |a| == |b| && from <= |a| && forall k | 0 <= k < |a| :: a[k].name == b[k].name
    ensures FindMember(a, name, from) == FindMember(b, name, from)
    decreases |a| - from
  {
    if from < |a| {
      FindSameNames(a, b, name, from + 1);
    }
  }

  /** A resolved pointer splits the tree into its path and the value there. */
  lemma {:induction false} PathPlug(v: Value, tokens: seq<Token>, x: Value)
    requires Get(v, tokens).Some?
    ensures Plug(Path(v, tokens), Get(v, tokens).value) == v
    ensures Get(Plug(Path(v, tokens), x), tokens) == Some(x)
    decreases |tokens|
  {
    hide Locate, WithChild, Child;
    if tokens != [] {
      var i := Locate(v, tokens[0]).value;
      var below := Child(v, i);
      var rest := tokens[1..];
      PathPlug(below, rest, x);
      PlugFirst(Frame(v, i), Path(below, rest), Get(below, rest).value);
      PlugFirst(Frame(v, i), Path(below, rest), x);
      SetSame(v, i);
      LocateSet(v, i, Plug(Path(below, rest), x), tokens[0]);
    }
  }

  // ---------------------------------------------------------------- Create against Get

  lemma EnsureExisting(v: Value, t: Token)
    requires t.index == Index(t.name)
    ensures Ensure(v, t).existed <==> Locate(v, t).Some?
    ensures Ensure(v, t).existed ==> Ensure(v, t).container == v && Some(Ensure(v, t).child) == Locate(v, t)
  {
    hide CString;
    if Appends(v, t) {
      DashIsNoIndex();
    }
  }

  lemma DashIsNoIndex()
    ensures Index("-").None?
  {
    assert "-"[0] in "-" && !IsDigit("-"[0]);
  }

  /** Main result: the value existed exactly when the pointer resolves, and then nothing changes. */
  lemma {:induction false} CreateExisting(v: Value, tokens: seq<Token>)
    requires FromNames(tokens)
    ensures Create(v, tokens, None).existed <==> Get(v, tokens).Some?
    ensures Create(v, tokens, None).existed ==> Create(v, tokens, None).tree == v
    decreases |tokens|
  {
    hide Ensure, Locate, WithChild, Child, Index;
    if tokens != [] {
      var t := tokens[0];
      assert t in tokens;
      var e := Ensure(v, t);
      EnsureExisting(v, t);
      CreateExisting(Child(e.container, e.child), tokens[1..]);
      SetSame(e.container, e.child);
    }
  }

  /** The step can be retraced: it neither appends to an array nor adds a name that holds a NUL. */
  predicate Retraceable(v: Value, t: Token) {
    !Appends(v, t) && (Coerce(v, t).Object? && Locate(Coerce(v, t), t).None? ==> '\0' !in t.name)
  }

  predicate AllRetraceable(v: Value, tokens: seq<Token>)
    decreases |tokens|
  {
    tokens != [] ==>
      && Retraceable(v, tokens[0])
      && AllRetraceable(Child(Ensure(v, tokens[0]).container, Ensure(v, tokens[0]).child), tokens[1..])
  }

  lemma RetraceStep(v: Value, t: Token)
    requires t.index == Index(t.name)
    ensures Retraceable(v, t) ==> Locate(Ensure(v, t).container, t) == Some(Ensure(v, t).child)
    ensures !Retraceable(v, t) ==> Locate(Ensure(v, t).container, t).None?
  {
    hide CString, Index;
    var w := Coerce(v, t);
    if Appends(v, t) {
      DashIsNoIndex();
    } else if w.Object? && FindMember(w.members, CString(t.name), 0).None? {
      FindAppended(w.members, Member(t.name, Null), CString(t.name), 0);
    }
  }

  lemma {:induction false} FindAppended(ms: seq<Member>, m: Member, name: string, from: nat)
    requires from <= |ms| && FindMember(ms, name, from).None?
    ensures FindMember(ms + [m], name, from) == if m.name == name then Some(|ms|) else None
    decreases |ms| - from
  {
    if from < |ms| {
      FindAppended(ms, m, name, from + 1);
    } else {
      assert FindMember(ms + [m], name, |ms| + 1).None?;
    }
  }

  /**
   * Main result: after creation the pointer resolves, to the value that was put there or was there,
   * exactly when every step can be retraced; otherwise it does not resolve at all.
   */
  lemma {:induction false} CreateThenGet(v: Value, tokens: seq<Token>, leaf: Option<Value>)
    requires FromNames(tokens)
    ensures
      var found := Get(Create(v, tokens, leaf).tree, tokens);
        if !AllRetraceable(v, tokens) then found.None?
        else found == Some(if leaf.Some? then leaf.value else Standing(v, tokens))
    decreases |tokens|
  {
    hide Ensure, Locate, WithChild, Child, Index, Retraceable;
    if tokens != [] {
      var t := tokens[0];
      assert t in tokens;
      var e := Ensure(v, t);
      var below := Child(e.container, e.child);
      var r := Create(below, tokens[1..], leaf);
      RetraceStep(v, t);
      LocateSet(e.container, e.child, r.tree, t);
      CreateThenGet(below, tokens[1..], leaf);
      EnsureExisting(v, t);
      if !e.existed {
        NewChildNull(v, t);
        GetInNull(tokens[1..]);
      }
    }
  }

  /** An element appended to an array is not found by the token that appended it. */
  lemma AppendedNotFound()
    ensures
      var tokens := [Token("-", None)];
        FromNames(tokens) && Get(Create(Array([]), tokens, None).tree, tokens).None?
  {
    hide Create, Get, Index;
    var tokens := [Token("-", None)];
    DashIsNoIndex();
    CreateThenGet(Array([]), tokens, None);
    assert !Retraceable(Array([]), tokens[0]);
  }

  /** A member created with a NUL in its name is not found by that name. */
  lemma NulNameNotFound()
    ensures
      var tokens := [Token("a\0b", None)];
        FromNames(tokens) && Get(Create(Object([]), tokens, None).tree, tokens).None?
  {
    hide Create, Get;
    var name := "a\0b";
    var tokens := [Token(name, None)];
    assert name[0] in name && !IsDigit(name[0]);
    assert name[1] in name;
    CreateThenGet(Object([]), tokens, None);
    assert !Retraceable(Object([]), tokens[0]);
  }

  /** The value at the pointer, or the null that is created there. */
  function Standing(v: Value, tokens: seq<Token>): Value {
    if Get(v, tokens).Some? then Get(v, tokens).value else Null
  }

  lemma NewChildNull(v: Value, t: Token)
    requires !Ensure(v, t).existed
    ensures Child(Ensure(v, t).container, Ensure(v, t).child) == Null
  {
    hide FindMember, CString;
  }

  lemma GetInNull(tokens: seq<Token>)
    ensures Get(Null, tokens) == if tokens == [] then Some(Null) else None
  {
  }

  /** In particular when no token is "-" and none holds a NUL. */
  lemma {:induction false} PlainTokensRetrace(v: Value, tokens: seq<Token>)
    requires forall t <- tokens :: t.name != "-" && '\0' !in t.name
    ensures AllRetraceable(v, tokens)
    decreases |tokens|
  {
    hide Ensure, Locate, Coerce;
    if tokens != [] {
      assert tokens[0] in tokens;
      var e := Ensure(v, tokens[0]);
      PlainTokensRetrace(Child(e.container, e.child), tokens[1..]);
    }
  }

  // ---------------------------------------------------------------- Erase against Get

  lemma {:induction false} GetSplit(v: Value, tokens: seq<Token>, t: Token)
    ensures Get(v, tokens + [t]) == if Get(v, tokens).None? then None else Get(Get(v, tokens).value, [t])
    decreases |tokens|
  {
    hide Locate, Child;
    if tokens == [] {
      assert tokens + [t] == [t];
    } else {
      assert (tokens + [t])[1..] == tokens[1..] + [t];
      if Locate(v, tokens[0]).Some? {
        GetSplit(Child(v, Locate(v, tokens[0]).value), tokens[1..], t);
      }
    }
  }

  /**
   * Main result: erasing succeeds exactly for a non-empty pointer that resolves, takes one child out of
   * the parent and touches nothing off the path; otherwise the tree is as it was.
   */
  lemma {:induction false} EraseExact(v: Value, tokens: seq<Token>)
    ensures Erase(v, tokens).found <==> tokens != [] && Get(v, tokens).Some?
    ensures !Erase(v, tokens).found ==> Erase(v, tokens).tree == v
    ensures Erase(v, tokens).found ==> Removed(v, tokens, Erase(v, tokens).tree)
    decreases |tokens|
  {
    hide Locate, WithChild, WithoutChild, Child;
    if tokens != [] && Locate(v, tokens[0]).Some? {
      var i := Locate(v, tokens[0]).value;
      if |tokens| == 1 {
        assert tokens[1..] == [] && tokens[..0] == [];
        RemovedHere(v, tokens);
      } else {
        var below := Child(v, i);
        EraseExact(below, tokens[1..]);
        SetSame(v, i);
        if Erase(below, tokens[1..]).found {
          RemovedBelow(v, tokens);
        }
      }
    }
  }

  /** The tree with the named child of the pointer's parent taken out, and the same everywhere else. */
  predicate Removed(v: Value, tokens: seq<Token>, tree: Value) {
    tokens != [] &&
    var up := tokens[..|tokens| - 1];
    var parent := Get(v, up);
    && parent.Some?
    && Locate(parent.value, tokens[|tokens| - 1]).Some?
    && tree == Plug(Path(v, up), WithoutChild(parent.value, Locate(parent.value, tokens[|tokens| - 1]).value))
  }

  lemma RemovedHere(v: Value, tokens: seq<Token>)
    requires |tokens| == 1 && Locate(v, tokens[0]).Some?
    ensures Removed(v, tokens, WithoutChild(v, Locate(v, tokens[0]).value))
  {
    hide Locate, WithoutChild;
    assert tokens[..0] == [];
  }

  lemma RemovedBelow(v: Value, tokens: seq<Token>)
    requires |tokens| > 1 && Locate(v, tokens[0]).Some?
    requires var below := Child(v, Locate(v, tokens[0]).value);
             Removed(below, tokens[1..], Erase(below, tokens[1..]).tree)
    ensures Removed(v, tokens, Erase(v, tokens).tree)
  {
    hide Locate, WithChild, WithoutChild, Child, Erase;
    var i := Locate(v, tokens[0]).value;
    var below := Child(v, i);
    var up := tokens[..|tokens| - 1];
    var inner := tokens[1..][..|tokens| - 2];
    assert up[1..] == inner && up[0] == tokens[0];
    var last := tokens[|tokens| - 1];
    var parent := Get(below, inner).value;
    var x := WithoutChild(parent, Locate(parent, last).value);
    PlugFirst(Frame(v, i), Path(below, inner), x);
    EraseStep(v, tokens);
  }

  lemma EraseStep(v: Value, tokens: seq<Token>)
    requires |tokens| > 1 && Locate(v, tokens[0]).Some?
    ensures
      var i := Locate(v, tokens[0]).value;
        Erase(v, tokens).tree == WithChild(v, i, Erase(Child(v, i), tokens[1..]).tree)
  {
    hide Locate, WithChild, WithoutChild, Child;
  }
}
