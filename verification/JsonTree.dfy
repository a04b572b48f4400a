/**
 Positions inside a value.  The reader keeps a stack of pointers to the nodes under
 construction; a pointer is the path of keys and indices that leads to the node.
 */
module JsonTree {
  import opened Words
  import opened JsonValue
  import opened JsonText
  import opened JsonParser

  datatype Selector = Key(key: Bytes) | Index(index: nat)

  type Path = seq<Selector>

  predicate HasChild(v: Value, sel: Selector) {
    match sel
    case Key(key) => v.Object? && HasKey(v.members, key)
    case Index(i) => v.Array? && i < |v.items|
  }

  function Child(v: Value, sel: Selector): Value
    requires HasChild(v, sel)
  {
    match sel
    case Key(key) => Find(v.members, key)
    case Index(i) => v.items[i]
  }

  function WithChild(v: Value, sel: Selector, child: Value): Value
    requires HasChild(v, sel)
  {
    match sel
    case Key(key) => Object(Put(v.members, key, child))
    case Index(i) => Array(v.items[i := child])
  }

  predicate HasPath(v: Value, path: Path)
    decreases |path|
  {
    path == [] || (HasChild(v, path[0]) && HasPath(Child(v, path[0]), path[1..]))
  }

  /** The node a path points to. */
  function Get(v: Value, path: Path): Value
    requires HasPath(v, path)
    decreases |path|
  {
    if path == [] then v else Get(Child(v, path[0]), path[1..])
  }

  /** The tree after assigning through the pointer. */
  function Set(v: Value, path: Path, node: Value): Value
    requires HasPath(v, path)
    decreases |path|
  {
    if path == [] then node else WithChild(v, path[0], Set(Child(v, path[0]), path[1..], node))
  }

  lemma {:induction false} PutFind(members: seq<Member>, key: Bytes, value: Value)
    ensures HasKey(Put(members, key, value), key) && Find(Put(members, key, value), key) == value
  {
    if members != [] && !BytesLess(key, members[0].key) && members[0].key != key {
      PutFind(members[1..], key, value);
      assert Put(members, key, value)[1..] == Put(members[1..], key, value);
    }
  }

  lemma {:induction false} PutTwice(members: seq<Member>, key: Bytes, v: Value, w: Value)
    ensures Put(Put(members, key, v), key, w) == Put(members, key, w)
  {
    BytesTrichotomy(key, key);
    if members != [] && !BytesLess(key, members[0].key) && members[0].key != key {
      PutTwice(members[1..], key, v, w);
      assert Put(members, key, v)[1..] == Put(members[1..], key, v);
    } else {
      var first := Put(members, key, v);
      assert first[0] == Member(key, v);
      assert first[1..] == if members == [] || BytesLess(key, members[0].key) then members else members[1..];
    }
  }

  lemma ChildOfWithChild(v: Value, sel: Selector, child: Value)
    requires HasChild(v, sel)
    ensures HasChild(WithChild(v, sel, child), sel) && Child(WithChild(v, sel, child), sel) == child
  {
    if sel.Key? {
      PutFind(v.members, sel.key, child);
    }
  }

  lemma WithChildTwice(v: Value, sel: Selector, child: Value, other: Value)
    requires HasChild(v, sel) && HasChild(WithChild(v, sel, child), sel)
    ensures WithChild(WithChild(v, sel, child), sel, other) == WithChild(v, sel, other)
  {
    if sel.Key? {
      PutTwice(v.members, sel.key, child, other);
    }
  }

  /** An assigned node reads back. */
  lemma {:induction false} GetSet(v: Value, path: Path, node: Value)
    requires HasPath(v, path)
    ensures HasPath(Set(v, path, node), path) && Get(Set(v, path, node), path) == node
    decreases |path|
  {
    if path != [] {
      GetSet(Child(v, path[0]), path[1..], node);
      ChildOfWithChild(v, path[0], Set(Child(v, path[0]), path[1..], node));
    }
  }

  /** A second assignment replaces the first. */
  lemma {:induction false} SetSet(v: Value, path: Path, node: Value, other: Value)
    requires HasPath(v, path)
    ensures HasPath(Set(v, path, node), path)
    ensures Set(Set(v, path, node), path, other) == Set(v, path, other)
    decreases |path|
  {
    GetSet(v, path, node);
    if path != [] {
      var sel, child := path[0], Child(v, path[0]);
      SetSet(child, path[1..], node, other);
      ChildOfWithChild(v, sel, Set(child, path[1..], node));
      WithChildTwice(v, sel, Set(child, path[1..], node), Set(child, path[1..], other));
    }
  }

  /** Assigning to a child of a node is assigning the node with that child changed. */
  lemma {:induction false} SetChild(v: Value, path: Path, sel: Selector, node: Value)
    requires HasPath(v, path) && HasChild(Get(v, path), sel)
    ensures HasPath(v, path + [sel])
    ensures Get(v, path + [sel]) == Child(Get(v, path), sel)
    ensures Set(v, path + [sel], node) == Set(v, path, WithChild(Get(v, path), sel, node))
    decreases |path|
  {
    if path == [] {
      assert path + [sel] == [sel];
      assert [sel][1..] == [];
    } else {
      assert (path + [sel])[1..] == path[1..] + [sel];
      SetChild(Child(v, path[0]), path[1..], sel, node);
    }
  }
}
