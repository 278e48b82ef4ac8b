/** The loops of Create, Get and Erase on a document that is updated in place. */
module PointerDocument {
  import opened Options
  import opened Characters
  import opened Json
  import opened Pointer
  import opened PointerTree
  import opened PointerEffects

  /** `FindMember(const Ch*)`. */
  method FindMemberNamed(ms: seq<Member>, name: string) returns (r: Option<nat>)
    ensures r == FindMember(ms, name, 0)
  {
    var i := 0;
    while i < |ms|
      invariant 0 <= i <= |ms|
      invariant FindMember(ms, name, 0) == FindMember(ms, name, i)
    {
      if ms[i].name == name {
        return Some(i);
      }
      i := i + 1;
    }
    return None;
  }

  /** The child a token names in an object or an array. */
  method Step(v: Value, t: Token) returns (r: Option<nat>)
    ensures r == Locate(v, t)
  {
    if v.Object? {
      r := FindMemberNamed(v.members, CString(t.name));
    } else if v.Array? {
      if t.index.None? || t.index.value >= |v.elements| {
        return None;
      }
      r := t.index;
    } else {
      r := None;
    }
  }

  /** Make the container have the child a token names. */
  method MakeChild(value: Value, t: Token) returns (v: Value, child: nat, existed: bool)
    ensures Ensured(v, child, existed) == Ensure(value, t)
  {
    hide CString;
    v, existed := value, true;
    if v.Array? && |t.name| == 1 && t.name[0] == '-' {
      assert t.name == "-";
      return Array(v.elements + [Null]), |v.elements|, false;
    }
    assert t.name != "-" || !v.Array?;
    if t.index.None? {
      if !v.Object? {
        v := Object([]);
      }
    } else if !v.Array? && !v.Object? {
      v := Array([]);
    }
    if v.Array? {
      child := t.index.value;
      if child >= |v.elements| {
        var es := v.elements;
        while child >= |es|
          invariant |v.elements| <= |es| <= child + 1
          invariant es == v.elements + seq(|es| - |v.elements|, _ => Null)
          decreases child - |es|
        {
          es := es + [Null];
        }
        assert es == Padded(v.elements, child + 1);
        v := Array(es);
        existed := false;
      }
    } else {
      var m := FindMemberNamed(v.members, CString(t.name));
      if m.None? {
        v := Object(v.members + [Member(t.name, Null)]);
        child := |v.members| - 1;
        existed := false;
      } else {
        child := m.value;
      }
    }
  }

  /** Put a value back at the end of a path, innermost container first. */
  method PlugBack(frames: seq<Frame>, v: Value) returns (r: Value)
    requires Proper(frames)
    ensures r == Plug(frames, v)
  {
    r := v;
    var i := |frames|;
    assert frames[..i] == frames;
    while i > 0
      invariant 0 <= i <= |frames|
      invariant Plug(frames[..i], r) == Plug(frames, v)
    {
      i := i - 1;
      assert frames[..i + 1][..i] == frames[..i];
      assert frames[i] in frames;
      r := WithChild(frames[i].container, frames[i].child, r);
    }
    assert frames[..0] == [];
  }

  class Document {
    var root: Value

    constructor (v: Value)
      ensures root == v
    {
      root := v;
    }

    /** The value, or the index of the first token that cannot be resolved. */
    method GetValueByPointer(tokens: seq<Token>) returns (r: Option<Value>, unresolved: nat)
      ensures r == Get(root, tokens)
      ensures forall w :: r == Some(w) <==> Resolves(root, tokens, w)
      ensures r.None? ==> unresolved < |tokens| && Get(root, tokens[..unresolved]).Some?
                          && Get(root, tokens[..unresolved + 1]).None?
    {
      hide Locate, Child, Resolves;
      forall w ensures Get(root, tokens) == Some(w) <==> Resolves(root, tokens, w) {
        GetResolves(root, tokens, w);
      }
      var v := root;
      var i := 0;
      assert tokens[0..] == tokens;
      while i < |tokens|
        invariant 0 <= i <= |tokens|
        invariant Get(root, tokens) == Get(v, tokens[i..])
        invariant Get(root, tokens[..i]) == Some(v)
      {
        assert tokens[i..][1..] == tokens[i + 1..];
        assert tokens[..i + 1] == tokens[..i] + [tokens[i]];
        GetSplit(root, tokens[..i], tokens[i]);
        GetOne(v, tokens[i]);
        var child := Step(v, tokens[i]);
        if child.None? {
          return None, i;
        }
        v := Child(v, child.value);
        i := i + 1;
      }
      return Some(v), i;
    }

    /** `Create`; with a leaf, the assignment of `Set` through the reference it returns. */
    method CreateValueByPointer(tokens: seq<Token>, leaf: Option<Value>) returns (existed: bool)
      modifies this
      ensures root == Create(old(root), tokens, leaf).tree
      ensures existed == Create(old(root), tokens, leaf).existed
      ensures Made(old(root), tokens, leaf, root)
    {
      hide Ensure, WithChild, Child, Made;
      CreateMakes(root, tokens, leaf, Create(root, tokens, leaf).tree);
      var v := root;
      var frames: seq<Frame> := [];
      existed := true;
      var i := 0;
      assert tokens[0..] == tokens;
      while i < |tokens|
        invariant 0 <= i <= |tokens| && Proper(frames) && root == old(root)
        invariant Create(root, tokens, leaf).tree == Plug(frames, Create(v, tokens[i..], leaf).tree)
        invariant Create(root, tokens, leaf).existed == (existed && Create(v, tokens[i..], leaf).existed)
      {
        assert tokens[i..][1..] == tokens[i + 1..];
        var container, child, had := MakeChild(v, tokens[i]);
        ghost var below := Create(Child(container, child), tokens[i + 1..], leaf).tree;
        PlugLast(frames, Frame(container, child), below);
        frames := frames + [Frame(container, child)];
        existed := existed && had;
        v := Child(container, child);
        i := i + 1;
      }
      assert tokens[i..] == [];
      if leaf.Some? {
        v := leaf.value;
      }
      root := PlugBack(frames, v);
    }

    method EraseValueByPointer(tokens: seq<Token>) returns (found: bool)
      modifies this
      ensures root == Erase(old(root), tokens).tree && found == Erase(old(root), tokens).found
      ensures if found then Cut(old(root), tokens, root) else root == old(root)
    {
      hide Locate, WithChild, WithoutChild, Child, Cut;
      EraseExact(root, tokens);
      EraseCuts(root, tokens, Erase(root, tokens).tree);
      if |tokens| == 0 {
        return false;
      }
      var v := root;
      var frames: seq<Frame> := [];
      var i := 0;
      assert tokens[0..] == tokens;
      while i < |tokens| - 1
        invariant 0 <= i < |tokens| && Proper(frames) && root == old(root)
        invariant Erase(root, tokens).found == Erase(v, tokens[i..]).found
        invariant Erase(root, tokens).tree == Plug(frames, Erase(v, tokens[i..]).tree)
        invariant Plug(frames, v) == root
      {
        assert tokens[i..][1..] == tokens[i + 1..] && tokens[i..][0] == tokens[i];
        var child := Step(v, tokens[i]);
        if child.None? {
          return false;
        }
        var f := Frame(v, child.value);
        PlugLast(frames, f, Erase(Child(v, child.value), tokens[i + 1..]).tree);
        PlugLast(frames, f, Child(v, child.value));
        SetSame(v, child.value);
        frames := frames + [f];
        v := Child(v, child.value);
        i := i + 1;
      }
      assert tokens[i..] == [tokens[i]];
      var last := Step(v, tokens[i]);
      if last.None? {
        return false;
      }
      v := WithoutChild(v, last.value);
      root := PlugBack(frames, v);
      found := true;
    }
  }

  lemma GetOne(v: Value, t: Token)
    ensures Get(v, [t]) == if Locate(v, t).None? then None else Some(Child(v, Locate(v, t).value))
  {
    hide Locate, Child;
    assert [t][1..] == [];
  }

  lemma PlugLast(frames: seq<Frame>, f: Frame, v: Value)
    requires Proper(frames) && f.child < Size(f.container)
    ensures Proper(frames + [f])
    ensures Plug(frames + [f], v) == Plug(frames, WithChild(f.container, f.child, v))
  {
    hide WithChild;
    assert (frames + [f])[..|frames|] == frames;
  }
}
