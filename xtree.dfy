/** The element tree of a parsed document (System.Xml.Linq), as the feed rewrite sees it.
    A document, and the content of every element, is a forest: a sequence of nodes in document order.
    Every element carries an identity, so that an element found once can be found again after the
    tree around it has changed. */
module XTree {
  import opened Base

  /** An expanded element name: namespace URI and local name. */
  datatype Name = Name(ns: string, local: string)

  /** An element (identity, name, child nodes) or a run of text. Attributes play no part in the rewrite. */
  datatype Node = Element(id: nat, name: Name, content: seq<Node>) | Text(text: string)

  /** What XElement.Parent gives: nothing for the root element, else the enclosing element. */
  datatype Parent = Top | Under(id: nat, name: Name)

  /** An element together with where it sits. */
  datatype Placement = Placement(node: Node, parent: Parent)

  /** XElement.Value: the text of all descendant text nodes, in document order. */
  function Value(n: Node): string
    decreases n
  {
    match n
    case Text(t) => t
    case Element(_, _, cs) => ValueOf(cs)
  }

  function ValueOf(fs: seq<Node>): string
    decreases fs
  {
    if fs == [] then "" else Value(fs[0]) + ValueOf(fs[1..])
  }

  /** Every element of the forest with its parent, in document order (XContainer.Descendants()). */
  function Placed(fs: seq<Node>, parent: Parent): seq<Placement>
    decreases fs
  {
    if fs == [] then [] else PlacedNode(fs[0], parent) + Placed(fs[1..], parent)
  }

  function PlacedNode(n: Node, parent: Parent): seq<Placement>
    decreases n
  {
    match n
    case Text(_) => []
    case Element(i, nm, cs) => [Placement(n, parent)] + Placed(cs, Under(i, nm))
  }

  /** The identities of the elements with the given local name, in document order. */
  function IdsNamed(fs: seq<Node>, local: string): seq<nat>
    decreases fs
  {
    if fs == [] then []
    else
      (match fs[0]
       case Text(_) => []
       case Element(i, n, cs) => (if n.local == local then [i] else []) + IdsNamed(cs, local))
      + IdsNamed(fs[1..], local)
  }

  /** The identities of all elements of the forest. */
  function IdSet(fs: seq<Node>): set<nat>
    decreases fs
  {
    if fs == [] then {} else NodeIds(fs[0]) + IdSet(fs[1..])
  }

  function NodeIds(n: Node): set<nat>
    decreases n
  {
    match n
    case Text(_) => {}
    case Element(i, _, cs) => {i} + IdSet(cs)
  }

  /** No identity occurs twice: distinct elements are distinct objects. */
  predicate Unique(fs: seq<Node>)
    decreases fs
  {
    fs == [] || (UniqueNode(fs[0]) && Unique(fs[1..]) && NodeIds(fs[0]) !! IdSet(fs[1..]))
  }

  predicate UniqueNode(n: Node)
    decreases n
  {
    match n
    case Text(_) => true
    case Element(i, _, cs) => i !in IdSet(cs) && Unique(cs)
  }

  /** The identities of the element children (not the deeper descendants) of a forest. */
  function ChildIds(cs: seq<Node>): set<nat>
  {
    set i | 0 <= i < |cs| && cs[i].Element? :: cs[i].id
  }

  /** The first element of the forest, in document order, with the given identity. */
  function Find(fs: seq<Node>, id: nat): (r: Option<Node>)
    ensures r.Some? <==> id in IdSet(fs)
    ensures r.Some? ==> r.value.Element? && r.value.id == id
    decreases fs
  {
    if fs == [] then None
    else match fs[0]
      case Text(_) => Find(fs[1..], id)
      case Element(i, _, cs) =>
        if i == id then Some(fs[0])
        else match Find(cs, id)
          case Some(e) => Some(e)
          case None => Find(fs[1..], id)
  }

  /** The element that has the element `id` as a direct child, if any (XElement.Parent). */
  function ParentOf(fs: seq<Node>, id: nat): (r: Option<Node>)
    ensures r.Some? ==> r.value.Element? && id in ChildIds(r.value.content)
    decreases fs
  {
    if fs == [] then None
    else match fs[0]
      case Text(_) => ParentOf(fs[1..], id)
      case Element(_, _, cs) =>
        if id in ChildIds(cs) then Some(fs[0])
        else match ParentOf(cs, id)
          case Some(p) => Some(p)
          case None => ParentOf(fs[1..], id)
  }

  /** The first element child with the given local name
      (parent.Elements().FirstOrDefault(e => e.Name.LocalName == local)). */
  function FirstChildNamed(cs: seq<Node>, local: string): (r: Option<Node>)
    ensures r.None? <==> forall j :: 0 <= j < |cs| ==> !(cs[j].Element? && cs[j].name.local == local)
    ensures r.Some? ==> exists j ::
      && 0 <= j < |cs| && cs[j] == r.value && cs[j].Element? && cs[j].name.local == local
      && forall i :: 0 <= i < j ==> !(cs[i].Element? && cs[i].name.local == local)
    decreases cs
  {
    if cs == [] then None
    else if cs[0].Element? && cs[0].name.local == local then Some(cs[0])
    else FirstChildNamed(cs[1..], local)
  }

  /** Assigning XElement.Value on the element `id`: its children are replaced by one text node. */
  function SetValue(fs: seq<Node>, id: nat, v: string): seq<Node>
    decreases fs
  {
    if fs == [] then [] else [SetValueNode(fs[0], id, v)] + SetValue(fs[1..], id, v)
  }

  function SetValueNode(n: Node, id: nat, v: string): Node
    decreases n
  {
    match n
    case Text(_) => n
    case Element(i, nm, cs) => if i == id then Element(i, nm, [Text(v)]) else Element(i, nm, SetValue(cs, id, v))
  }

  /** XNode.AddAfterSelf on the element `id`: `x` becomes its next sibling. */
  function InsertAfter(fs: seq<Node>, id: nat, x: Node): seq<Node>
    decreases fs
  {
    if fs == [] then [] else InsertAfterNode(fs[0], id, x) + InsertAfter(fs[1..], id, x)
  }

  function InsertAfterNode(n: Node, id: nat, x: Node): seq<Node>
    decreases n
  {
    match n
    case Text(_) => [n]
    case Element(i, nm, cs) =>
      var e := Element(i, nm, InsertAfter(cs, id, x));
      if i == id then [e, x] else [e]
  }

  /** Extensions.Remove over every element `sel` picks: the picked elements leave the tree together with
      their subtrees. `sel` reads only an element's name and its parent's name, and removing elements changes
      neither for the elements that stay, so removing them one after another removes exactly these. */
  function Prune(fs: seq<Node>, parent: Parent, sel: (Name, Parent) -> bool): seq<Node>
    decreases fs
  {
    if fs == [] then [] else PruneNode(fs[0], parent, sel) + Prune(fs[1..], parent, sel)
  }

  function PruneNode(n: Node, parent: Parent, sel: (Name, Parent) -> bool): seq<Node>
    decreases n
  {
    match n
    case Text(_) => [n]
    case Element(i, nm, cs) => if sel(nm, parent) then [] else [Element(i, nm, Prune(cs, Under(i, nm), sel))]
  }

  // ---------------------------------------------------------------------------------------------
  // Forests split at any point

  lemma {:induction false} IdSetAppend(a: seq<Node>, b: seq<Node>)
    ensures IdSet(a + b) == IdSet(a) + IdSet(b)
    decreases a
  {
    if a == [] {
      assert a + b == b;
    } else {
      assert (a + b)[0] == a[0] && (a + b)[1..] == a[1..] + b;
      IdSetAppend(a[1..], b);
    }
  }

  lemma {:induction false} PlacedAppend(a: seq<Node>, b: seq<Node>, parent: Parent)
    ensures Placed(a + b, parent) == Placed(a, parent) + Placed(b, parent)
    decreases a
  {
    if a == [] {
      assert a + b == b;
    } else {
      assert (a + b)[0] == a[0] && (a + b)[1..] == a[1..] + b;
      PlacedAppend(a[1..], b, parent);
    }
  }

  lemma {:induction false} ValueOfAppend(a: seq<Node>, b: seq<Node>)
    ensures ValueOf(a + b) == ValueOf(a) + ValueOf(b)
    decreases a
  {
    if a == [] {
      assert a + b == b;
    } else {
      assert (a + b)[0] == a[0] && (a + b)[1..] == a[1..] + b;
      ValueOfAppend(a[1..], b);
    }
  }

  /** A forest split in two has unique identities exactly when both parts do and they share none. */
  lemma {:induction false} UniqueAppend(a: seq<Node>, b: seq<Node>)
    ensures Unique(a + b) <==> Unique(a) && Unique(b) && IdSet(a) !! IdSet(b)
    decreases a
  {
    if a == [] {
      assert a + b == b;
    } else {
      assert (a + b)[0] == a[0] && (a + b)[1..] == a[1..] + b;
      UniqueAppend(a[1..], b);
      IdSetAppend(a[1..], b);
    }
  }

  /** A forest of one node. */
  lemma Single(n: Node)
    ensures IdSet([n]) == NodeIds(n)
    ensures Unique([n]) <==> UniqueNode(n)
    ensures Placed([n], Top) == PlacedNode(n, Top)
    ensures ValueOf([n]) == Value(n)
  {
    assert [n][1..] == [];
  }

  lemma Single2(n: Node, parent: Parent)
    ensures Placed([n], parent) == PlacedNode(n, parent)
  {
    assert [n][1..] == [];
  }

  // ---------------------------------------------------------------------------------------------
  // The rewrites keep identities distinct

  /** Removing subtrees only drops identities, so distinct identities stay distinct. */
  lemma {:induction false} PruneIds(fs: seq<Node>, parent: Parent, sel: (Name, Parent) -> bool)
    ensures IdSet(Prune(fs, parent, sel)) <= IdSet(fs)
    ensures Unique(fs) ==> Unique(Prune(fs, parent, sel))
    decreases fs
  {
    if fs != [] {
      var h := PruneNode(fs[0], parent, sel);
      var t := Prune(fs[1..], parent, sel);
      PruneIds(fs[1..], parent, sel);
      UniqueAppend(h, t);
      IdSetAppend(h, t);
      match fs[0]
      case Text(_) =>
        Single(fs[0]);
      case Element(i, n, cs) =>
        PruneIds(cs, Under(i, n), sel);
        if !sel(n, parent) {
          Single(Element(i, n, Prune(cs, Under(i, n), sel)));
          if Unique(fs) {
            assert UniqueNode(fs[0]) && Unique(fs[1..]);
          }
        }
    }
  }

  /** Replacing an element's children by text only drops identities. */
  lemma {:induction false} SetValueIds(fs: seq<Node>, id: nat, v: string)
    ensures IdSet(SetValue(fs, id, v)) <= IdSet(fs)
    ensures Unique(fs) ==> Unique(SetValue(fs, id, v))
    decreases fs
  {
    if fs != [] {
      var h := SetValueNode(fs[0], id, v);
      var t := SetValue(fs[1..], id, v);
      SetValueIds(fs[1..], id, v);
      UniqueAppend([h], t);
      IdSetAppend([h], t);
      Single(h);
      match fs[0]
      case Text(_) =>
      case Element(i, n, cs) =>
        SetValueIds(cs, id, v);
        Single(Text(v));
        if Unique(fs) {
          assert UniqueNode(fs[0]) && Unique(fs[1..]);
        }
    }
  }

  /** Inserting after an element that does not occur changes nothing. */
  lemma {:induction false} InsertAfterAbsent(fs: seq<Node>, id: nat, x: Node)
    requires id !in IdSet(fs)
    ensures InsertAfter(fs, id, x) == fs
    decreases fs
  {
    if fs != [] {
      InsertAfterAbsent(fs[1..], id, x);
      match fs[0]
      case Text(_) =>
      case Element(i, n, cs) =>
        InsertAfterAbsent(cs, id, x);
    }
  }

  /** Inserting an element with a new identity and no element children keeps identities distinct. */
  lemma {:induction false} InsertAfterIds(fs: seq<Node>, id: nat, x: Node)
    requires x.Element? && UniqueNode(x) && IdSet(x.content) == {} && x.id !in IdSet(fs)
    ensures IdSet(InsertAfter(fs, id, x)) <= IdSet(fs) + {x.id}
    ensures Unique(fs) ==> Unique(InsertAfter(fs, id, x))
    decreases fs
  {
    if fs != [] {
      var h := InsertAfterNode(fs[0], id, x);
      var t := InsertAfter(fs[1..], id, x);
      InsertAfterIds(fs[1..], id, x);
      UniqueAppend(h, t);
      IdSetAppend(h, t);
      Single(x);
      match fs[0]
      case Text(_) =>
        Single(fs[0]);
      case Element(i, n, cs) =>
        InsertAfterIds(cs, id, x);
        var e := Element(i, n, InsertAfter(cs, id, x));
        Single(e);
        if Unique(fs) {
          assert UniqueNode(fs[0]) && Unique(fs[1..]);
        }
        if i == id {
          assert h == [e] + [x];
          UniqueAppend([e], [x]);
          IdSetAppend([e], [x]);
          if Unique(fs) {
            InsertAfterAbsent(cs, id, x);
            InsertAfterAbsent(fs[1..], id, x);
            assert e == fs[0];
          }
        } else {
          assert h == [e];
          assert i in IdSet(fs);
          if Unique(fs) {
            if id in IdSet(cs) {
              InsertAfterAbsent(fs[1..], id, x);
            } else {
              InsertAfterAbsent(cs, id, x);
            }
          }
        }
    }
  }

  // ---------------------------------------------------------------------------------------------
  // Finding an element again after a rewrite

  lemma {:induction false} FindAppend(a: seq<Node>, b: seq<Node>, id: nat)
    ensures Find(a + b, id) == if id in IdSet(a) then Find(a, id) else Find(b, id)
    decreases a
  {
    if a == [] {
      assert a + b == b;
    } else {
      assert (a + b)[0] == a[0] && (a + b)[1..] == a[1..] + b;
      FindAppend(a[1..], b, id);
    }
  }

  /** An element found in a forest has its descendants in the forest too; with distinct identities
      it does not contain itself. */
  lemma {:induction false} FindInside(fs: seq<Node>, id: nat)
    requires id in IdSet(fs)
    ensures IdSet(Find(fs, id).value.content) <= IdSet(fs)
    ensures Unique(fs) ==> UniqueNode(Find(fs, id).value)
    decreases fs
  {
    match fs[0]
    case Text(_) =>
      FindInside(fs[1..], id);
    case Element(i, _, cs) =>
      if i != id {
        if id in IdSet(cs) {
          if Unique(fs) {
            assert UniqueNode(fs[0]);
          }
          FindInside(cs, id);
        } else {
          FindInside(fs[1..], id);
        }
      }
  }

  /** After assigning the value of an element, the element holds exactly that text. */
  lemma {:induction false} FindAfterSetValue(fs: seq<Node>, id: nat, v: string)
    requires id in IdSet(fs)
    ensures Find(SetValue(fs, id, v), id) == Some(Element(id, Find(fs, id).value.name, [Text(v)]))
    decreases fs
  {
    SetValueIds(fs, id, v);
    var h := SetValueNode(fs[0], id, v);
    Single(h);
    FindAppend([h], SetValue(fs[1..], id, v), id);
    match fs[0]
    case Text(_) =>
      FindAfterSetValue(fs[1..], id, v);
    case Element(i, n, cs) =>
      if i != id {
        SetValueIds(cs, id, v);
        if id in IdSet(cs) {
          FindAfterSetValue(cs, id, v);
        } else {
          FindAfterSetValue(fs[1..], id, v);
        }
      }
  }

  /** Assigning the value of an element below `pid` rewrites the content of `pid` and nothing else of it. */
  lemma {:induction false} FindAboveSetValue(fs: seq<Node>, pid: nat, k: nat, v: string)
    requires Unique(fs) && pid in IdSet(fs) && k in IdSet(Find(fs, pid).value.content)
    ensures Find(SetValue(fs, k, v), pid)
      == Some(Element(pid, Find(fs, pid).value.name, SetValue(Find(fs, pid).value.content, k, v)))
    decreases fs
  {
    var h := SetValueNode(fs[0], k, v);
    Single(h);
    FindAppend([h], SetValue(fs[1..], k, v), pid);
    assert UniqueNode(fs[0]) && Unique(fs[1..]);
    match fs[0]
    case Text(_) =>
      FindAboveSetValue(fs[1..], pid, k, v);
    case Element(i, n, cs) =>
      if i == pid {
      } else if pid in IdSet(cs) {
        FindInside(cs, pid);
        FindAboveSetValue(cs, pid, k, v);
      } else {
        SetValueIds(cs, k, v);
        Single(Text(v));
        FindAboveSetValue(fs[1..], pid, k, v);
      }
  }

  /** Inserting after an element below `pid` rewrites the content of `pid` and nothing else of it. */
  lemma {:induction false} FindAboveInsertAfter(fs: seq<Node>, pid: nat, k: nat, x: Node)
    requires Unique(fs) && pid in IdSet(fs) && k in IdSet(Find(fs, pid).value.content)
    requires x.Element? && UniqueNode(x) && IdSet(x.content) == {} && x.id !in IdSet(fs)
    ensures Find(InsertAfter(fs, k, x), pid)
      == Some(Element(pid, Find(fs, pid).value.name, InsertAfter(Find(fs, pid).value.content, k, x)))
    decreases fs
  {
    var h := InsertAfterNode(fs[0], k, x);
    FindAppend(h, InsertAfter(fs[1..], k, x), pid);
    assert UniqueNode(fs[0]) && Unique(fs[1..]);
    match fs[0]
    case Text(_) =>
      Single(fs[0]);
      FindAboveInsertAfter(fs[1..], pid, k, x);
    case Element(i, n, cs) =>
      var e := Element(i, n, InsertAfter(cs, k, x));
      Single(e);
      if i == pid {
        assert h == [e] || h == [e, x];
        FindAppend([e], [x], pid);
      } else if pid in IdSet(cs) {
        FindInside(cs, pid);
        FindAboveInsertAfter(cs, pid, k, x);
        FindAppend([e], [x], pid);
      } else {
        InsertAfterIds(cs, k, x);
        Single(x);
        IdSetAppend([e], [x]);
        FindAboveInsertAfter(fs[1..], pid, k, x);
      }
  }

  // ---------------------------------------------------------------------------------------------
  // Rewrites seen from one level of the tree

  /** The node at position j of a forest, and what distinct identities say about it. */
  lemma NodeIdsAt(cs: seq<Node>, j: nat)
    requires j < |cs|
    ensures NodeIds(cs[j]) <= IdSet(cs)
    ensures Unique(cs) ==> UniqueNode(cs[j]) && NodeIds(cs[j]) !! IdSet(cs[..j]) && NodeIds(cs[j]) !! IdSet(cs[j + 1..])
  {
    assert cs == cs[..j] + ([cs[j]] + cs[j + 1..]);
    IdSetAppend(cs[..j], [cs[j]] + cs[j + 1..]);
    IdSetAppend([cs[j]], cs[j + 1..]);
    UniqueAppend(cs[..j], [cs[j]] + cs[j + 1..]);
    UniqueAppend([cs[j]], cs[j + 1..]);
    Single(cs[j]);
  }

  /** With distinct identities, an element child is what looking up its identity finds. */
  lemma FindAt(cs: seq<Node>, j: nat)
    requires Unique(cs) && j < |cs| && cs[j].Element?
    ensures Find(cs, cs[j].id) == Some(cs[j])
  {
    NodeIdsAt(cs, j);
    assert cs == cs[..j] + cs[j..];
    FindAppend(cs[..j], cs[j..], cs[j].id);
    assert cs[j..][0] == cs[j];
  }

  /** Assigning a value rewrites each node where it stands: positions, identities and names stay. */
  lemma {:induction false} SetValuePointwise(fs: seq<Node>, id: nat, v: string)
    ensures |SetValue(fs, id, v)| == |fs|
    ensures forall j :: 0 <= j < |fs| ==> SetValue(fs, id, v)[j] == SetValueNode(fs[j], id, v)
    decreases fs
  {
    if fs != [] {
      SetValuePointwise(fs[1..], id, v);
    }
  }

  lemma {:induction false} InsertAfterAppend(a: seq<Node>, b: seq<Node>, id: nat, x: Node)
    ensures InsertAfter(a + b, id, x) == InsertAfter(a, id, x) + InsertAfter(b, id, x)
    decreases a
  {
    if a == [] {
      assert a + b == b;
    } else {
      assert (a + b)[0] == a[0] && (a + b)[1..] == a[1..] + b;
      InsertAfterAppend(a[1..], b, id, x);
    }
  }

  /** AddAfterSelf on the child at position j puts the new node at position j + 1 and moves
      nothing else. */
  lemma InsertAfterLevel(cs: seq<Node>, j: nat, x: Node)
    requires Unique(cs) && j < |cs| && cs[j].Element?
    ensures InsertAfter(cs, cs[j].id, x) == cs[..j + 1] + [x] + cs[j + 1..]
  {
    ChildAlone(cs, j);
    SplitAt(cs, j);
    InsertAfterSplice(cs[..j], cs[j], cs[j + 1..], x);
  }

  /** A forest is what comes before position j, the node there, and what comes after it. */
  lemma SplitAt(cs: seq<Node>, j: nat)
    requires j < |cs|
    ensures cs == cs[..j] + [cs[j]] + cs[j + 1..] && cs[..j + 1] == cs[..j] + [cs[j]]
  {
  }

  /** With distinct identities, the identity of an element child occurs nowhere else in the forest. */
  lemma ChildAlone(cs: seq<Node>, j: nat)
    requires Unique(cs) && j < |cs| && cs[j].Element?
    ensures UniqueNode(cs[j]) && cs[j].id in IdSet(cs)
    ensures cs[j].id !in IdSet(cs[..j]) && cs[j].id !in IdSet(cs[j + 1..])
  {
    NodeIdsAt(cs, j);
    assert cs[j].id in NodeIds(cs[j]);
  }

  lemma InsertAfterSplice(pre: seq<Node>, e: Node, post: seq<Node>, x: Node)
    requires e.Element? && UniqueNode(e) && e.id !in IdSet(pre) && e.id !in IdSet(post)
    ensures InsertAfter(pre + [e] + post, e.id, x) == pre + [e, x] + post
  {
    InsertAfterAppend(pre + [e], post, e.id, x);
    InsertAfterAppend(pre, [e], e.id, x);
    InsertAfterAbsent(pre, e.id, x);
    InsertAfterAbsent(post, e.id, x);
    InsertAfterHere(e, x);
  }

  lemma InsertAfterHere(e: Node, x: Node)
    requires e.Element? && UniqueNode(e)
    ensures InsertAfter([e], e.id, x) == [e, x]
  {
    InsertAfterAbsent(e.content, e.id, x);
    assert [e][1..] == [];
  }

  /** Two nodes inserted after the same element end up in reverse order of insertion. */
  lemma InsertAfterTwice(cs: seq<Node>, j: nat, a: Node, b: Node)
    requires Unique(cs) && j < |cs| && cs[j].Element?
    requires a.Element? && UniqueNode(a) && IdSet(a.content) == {} && a.id !in IdSet(cs)
    ensures InsertAfter(InsertAfter(cs, cs[j].id, a), cs[j].id, b) == cs[..j + 1] + [b, a] + cs[j + 1..]
  {
    ChildAlone(cs, j);
    SplitAt(cs, j);
    InsertAfterSplice(cs[..j], cs[j], cs[j + 1..], a);
    InsertAfterSecond(cs[..j], cs[j], cs[j + 1..], a, b);
  }

  lemma InsertAfterSecond(pre: seq<Node>, e: Node, post: seq<Node>, a: Node, b: Node)
    requires e.Element? && UniqueNode(e) && e.id !in IdSet(pre) && e.id !in IdSet(post)
    requires a.Element? && IdSet(a.content) == {} && a.id != e.id
    ensures InsertAfter(pre + [e, a] + post, e.id, b) == pre + [e] + [b, a] + post
  {
    Regroup(pre, e, a, b, post);
    IdSetAppend([a], post);
    Single(a);
    InsertAfterSplice(pre, e, [a] + post, b);
  }

  lemma Regroup(pre: seq<Node>, e: Node, a: Node, b: Node, post: seq<Node>)
    ensures pre + [e, a] + post == pre + [e] + ([a] + post)
    ensures pre + [e, b] + ([a] + post) == pre + [e] + [b, a] + post
  {
  }

  /** With distinct identities, XElement.Parent is the element that holds the element as a child,
      and looking that element up again finds it. */
  lemma {:induction false} ParentOfFound(fs: seq<Node>, k: nat)
    requires Unique(fs)
    ensures match ParentOf(fs, k)
      case None => true
      case Some(p) => p.Element? && k in ChildIds(p.content) && p.id in IdSet(fs) && Find(fs, p.id) == Some(p)
    decreases fs
  {
    if fs != [] {
      assert UniqueNode(fs[0]) && Unique(fs[1..]);
      match fs[0]
      case Text(_) =>
        ParentOfFound(fs[1..], k);
      case Element(i, _, cs) =>
        if k !in ChildIds(cs) {
          ParentOfFound(cs, k);
          ParentOfFound(fs[1..], k);
        }
    }
  }

  // ---------------------------------------------------------------------------------------------
  // What pruning removes and what it keeps

  /** After pruning, no element that the selection picks is left anywhere. */
  lemma {:induction false} PruneSound(fs: seq<Node>, parent: Parent, sel: (Name, Parent) -> bool)
    ensures forall q :: q in Placed(Prune(fs, parent, sel), parent) ==> q.node.Element? && !sel(q.node.name, q.parent)
    decreases fs
  {
    if fs != [] {
      var h := PruneNode(fs[0], parent, sel);
      PlacedAppend(h, Prune(fs[1..], parent, sel), parent);
      PruneSound(fs[1..], parent, sel);
      match fs[0]
      case Text(_) =>
        Single2(fs[0], parent);
      case Element(i, n, cs) =>
        if !sel(n, parent) {
          Single2(Element(i, n, Prune(cs, Under(i, n), sel)), parent);
          PruneSound(cs, Under(i, n), sel);
        }
    }
  }

  /** Every element left after pruning was there before, at the same place under the same parent, with
      the same identity and name, and its children are its old children pruned: nothing else changes. */
  lemma {:induction false} PruneCorresponds(fs: seq<Node>, parent: Parent, sel: (Name, Parent) -> bool)
    ensures forall q :: q in Placed(Prune(fs, parent, sel), parent) ==>
      && q.node.Element?
      && exists o ::
           && o in Placed(fs, parent) && o.parent == q.parent && o.node.Element?
           && o.node.id == q.node.id && o.node.name == q.node.name
           && q.node.content == Prune(o.node.content, Under(o.node.id, o.node.name), sel)
    decreases fs
  {
    if fs != [] {
      var h := PruneNode(fs[0], parent, sel);
      PlacedAppend(h, Prune(fs[1..], parent, sel), parent);
      PruneCorresponds(fs[1..], parent, sel);
      match fs[0]
      case Text(_) =>
        Single2(fs[0], parent);
      case Element(i, n, cs) =>
        if !sel(n, parent) {
          Single2(Element(i, n, Prune(cs, Under(i, n), sel)), parent);
          PruneCorresponds(cs, Under(i, n), sel);
          assert Placement(fs[0], parent) in Placed(fs, parent);
        }
    }
  }

  /** Pruning keeps every text node and every element child the selection does not pick, each with its
      own children pruned. */
  lemma {:induction false} PruneKeeps(fs: seq<Node>, parent: Parent, sel: (Name, Parent) -> bool)
    ensures forall j :: 0 <= j < |fs| && fs[j].Text? ==> fs[j] in Prune(fs, parent, sel)
    ensures forall j :: 0 <= j < |fs| && fs[j].Element? && !sel(fs[j].name, parent) ==>
      Element(fs[j].id, fs[j].name, Prune(fs[j].content, Under(fs[j].id, fs[j].name), sel)) in Prune(fs, parent, sel)
    decreases fs
  {
    if fs != [] {
      PruneKeeps(fs[1..], parent, sel);
      forall j | 1 <= j < |fs|
        ensures fs[j] == fs[1..][j - 1]
      {
      }
    }
  }

  // ---------------------------------------------------------------------------------------------
  // Fresh identities

  /** A number above every identity of the forest: where fresh identities may start. */
  function Bound(fs: seq<Node>): (b: nat)
    ensures forall i :: i in IdSet(fs) ==> i < b
    decreases fs
  {
    if fs == [] then 0
    else
      var h, t := BoundNode(fs[0]), Bound(fs[1..]);
      if h < t then t else h
  }

  function BoundNode(n: Node): (b: nat)
    ensures forall i :: i in NodeIds(n) ==> i < b
    decreases n
  {
    match n
    case Text(_) => 0
    case Element(i, _, cs) =>
      var t := Bound(cs);
      if i < t then t else i + 1
  }

  /** The forest has distinct identities, all below `next`. */
  predicate WellFormed(fs: seq<Node>, next: nat) {
    Unique(fs) && forall i :: i in IdSet(fs) ==> i < next
  }

  lemma {:induction false} SetValueAbsent(fs: seq<Node>, id: nat, v: string)
    requires id !in IdSet(fs)
    ensures SetValue(fs, id, v) == fs
    decreases fs
  {
    if fs != [] {
      SetValueAbsent(fs[1..], id, v);
      match fs[0]
      case Text(_) =>
      case Element(i, nm, cs) =>
        SetValueAbsent(cs, id, v);
    }
  }

  lemma {:induction false} SetValueAppend(a: seq<Node>, b: seq<Node>, id: nat, v: string)
    ensures SetValue(a + b, id, v) == SetValue(a, id, v) + SetValue(b, id, v)
    decreases a
  {
    if a == [] {
      assert a + b == b;
    } else {
      assert (a + b)[0] == a[0] && (a + b)[1..] == a[1..] + b;
      SetValueAppend(a[1..], b, id, v);
    }
  }

  /** Assigning the value of the child at position j rewrites that child and no other node. */
  lemma SetValueLevel(cs: seq<Node>, j: nat, v: string)
    requires Unique(cs) && j < |cs| && cs[j].Element?
    ensures SetValue(cs, cs[j].id, v) == cs[..j] + [Element(cs[j].id, cs[j].name, [Text(v)])] + cs[j + 1..]
  {
    NodeIdsAt(cs, j);
    assert cs[j].id in NodeIds(cs[j]);
    assert cs == cs[..j] + [cs[j]] + cs[j + 1..];
    SetValueSplice(cs[..j], cs[j], cs[j + 1..], v);
  }

  lemma SetValueSplice(pre: seq<Node>, e: Node, post: seq<Node>, v: string)
    requires e.Element? && e.id !in IdSet(pre) && e.id !in IdSet(post)
    ensures SetValue(pre + [e] + post, e.id, v) == pre + [Element(e.id, e.name, [Text(v)])] + post
  {
    SetValueAppend(pre + [e], post, e.id, v);
    SetValueAppend(pre, [e], e.id, v);
    SetValueAbsent(pre, e.id, v);
    SetValueAbsent(post, e.id, v);
    assert [e][1..] == [];
  }

  /** A new element with only text inside holds no other element. */
  lemma TextElement(i: nat, nm: Name, v: string)
    ensures UniqueNode(Element(i, nm, [Text(v)])) && IdSet([Text(v)]) == {}
  {
    var c := [Text(v)];
    assert c[1..] == [] && NodeIds(c[0]) == {} && UniqueNode(c[0]);
    assert IdSet(c) == {} && Unique(c);
  }

  /** A new element with a fresh identity and only text inside keeps the forest well formed. */
  lemma InsertFresh(fs: seq<Node>, next: nat, k: nat, nm: Name, v: string)
    ensures WellFormed(fs, next) ==> WellFormed(InsertAfter(fs, k, Element(next, nm, [Text(v)])), next + 1)
  {
    TextElement(next, nm, v);
    if WellFormed(fs, next) {
      InsertAfterIds(fs, k, Element(next, nm, [Text(v)]));
    }
  }

  /** With distinct identities, an element below `pid` is found the same way from the document and
      from the content of `pid`. */
  lemma {:induction false} FindNested(fs: seq<Node>, pid: nat, k: nat)
    requires Unique(fs) && pid in IdSet(fs) && k in IdSet(Find(fs, pid).value.content)
    ensures Find(fs, k) == Find(Find(fs, pid).value.content, k)
    decreases fs
  {
    assert UniqueNode(fs[0]) && Unique(fs[1..]) && NodeIds(fs[0]) !! IdSet(fs[1..]);
    match fs[0]
    case Text(_) =>
      FindNested(fs[1..], pid, k);
    case Element(i, _, cs) =>
      if i == pid {
      } else if pid in IdSet(cs) {
        FindInside(cs, pid);
        FindNested(cs, pid, k);
      } else {
        FindInside(fs[1..], pid);
        FindNested(fs[1..], pid, k);
      }
  }

  /** Two element children with the same identity are the same position. */
  lemma PositionOfId(cs: seq<Node>, i: nat, j: nat)
    requires Unique(cs) && i < |cs| && j < |cs| && cs[i].Element? && cs[j].Element? && cs[i].id == cs[j].id
    ensures i == j
  {
    if i < j {
      NodeIdsAt(cs, j);
      NodeIdsAt(cs[..j], i);
    } else if j < i {
      NodeIdsAt(cs, i);
      NodeIdsAt(cs[..i], j);
    }
  }

  /** Every identity the search by local name returns is an element of the forest with that local name,
      and every element of the forest with that local name is returned. */
  lemma {:induction false} IdsNamedFound(fs: seq<Node>, local: string)
    ensures forall k :: k in IdsNamed(fs, local) ==> k in IdSet(fs)
    ensures Unique(fs) ==> forall k :: k in IdsNamed(fs, local) ==> Find(fs, k).value.name.local == local
    ensures forall k :: Find(fs, k).Some? && Find(fs, k).value.name.local == local ==> k in IdsNamed(fs, local)
    decreases fs
  {
    if fs != [] {
      IdsNamedFound(fs[1..], local);
      if Unique(fs) {
        assert UniqueNode(fs[0]) && Unique(fs[1..]) && NodeIds(fs[0]) !! IdSet(fs[1..]);
      }
      match fs[0]
      case Text(_) =>
      case Element(i, n, cs) =>
        IdsNamedFound(cs, local);
    }
  }

  /** The element `k` and everything below it; nothing when `k` is not in the forest. */
  function Subtree(fs: seq<Node>, k: nat): set<nat> {
    match Find(fs, k)
    case Some(e) => NodeIds(e)
    case None => {}
  }

  /** No identity of the list is the element of a later identity or lies below it: an element comes
      before its descendants. */
  predicate Ordered(fs: seq<Node>, ids: seq<nat>) {
    forall m, n :: 0 <= m < n < |ids| ==> ids[m] !in Subtree(fs, ids[n])
  }

  lemma SubtreeWithin(fs: seq<Node>, k: nat)
    ensures Subtree(fs, k) <= IdSet(fs)
  {
    if k in IdSet(fs) {
      FindInside(fs, k);
    }
  }

  lemma OrderedAppend(fs: seq<Node>, a: seq<nat>, b: seq<nat>)
    requires Ordered(fs, a) && Ordered(fs, b)
    requires forall x, y :: x in a && y in b ==> x !in Subtree(fs, y)
    ensures Ordered(fs, a + b)
  {
    var c := a + b;
    forall m, n | 0 <= m < n < |c|
      ensures c[m] !in Subtree(fs, c[n])
    {
      if n < |a| {
        assert c[m] == a[m] && c[n] == a[n];
      } else if m < |a| {
        assert c[m] in a && c[n] in b;
      } else {
        assert c[m] == b[m - |a|] && c[n] == b[n - |a|];
      }
    }
  }

  /** Order over a part of the forest carries over to the whole forest when each listed element has the
      same subtree in both. */
  lemma OrderedTransfer(fs: seq<Node>, part: seq<Node>, ids: seq<nat>)
    requires Ordered(part, ids)
    requires forall y :: y in ids ==> Subtree(fs, y) == Subtree(part, y)
    ensures Ordered(fs, ids)
  {
    forall m, n | 0 <= m < n < |ids|
      ensures ids[m] !in Subtree(fs, ids[n])
    {
      assert ids[n] in ids;
    }
  }

  /** With distinct identities, the search by local name lists each element before its descendants,
      and lists no element twice. */
  lemma {:induction false} IdsNamedOrdered(fs: seq<Node>, local: string)
    requires Unique(fs)
    ensures Ordered(fs, IdsNamed(fs, local))
    decreases fs
  {
    if fs != [] {
      assert UniqueNode(fs[0]) && Unique(fs[1..]) && NodeIds(fs[0]) !! IdSet(fs[1..]);
      var t := fs[1..];
      var T := IdsNamed(t, local);
      IdsNamedOrdered(t, local);
      IdsNamedFound(t, local);
      forall y | y in T
        ensures Subtree(fs, y) == Subtree(t, y)
      {
        FindAppend([fs[0]], t, y);
        Single(fs[0]);
        assert fs == [fs[0]] + t;
      }
      OrderedTransfer(fs, t, T);
      match fs[0]
      case Text(_) =>
        assert IdsNamed(fs, local) == T;
      case Element(i, n, cs) =>
        var C := IdsNamed(cs, local);
        var Hd := if n.local == local then [i] else [];
        IdsNamedOrdered(cs, local);
        IdsNamedFound(cs, local);
        forall y | y in C
          ensures Subtree(fs, y) == Subtree(cs, y)
        {
          FindSub(fs, y);
        }
        OrderedTransfer(fs, cs, C);
        forall x, y | x in Hd && y in C
          ensures x !in Subtree(fs, y)
        {
          SubtreeWithin(cs, y);
        }
        OrderedAppend(fs, Hd, C);
        forall x, y | x in Hd + C && y in T
          ensures x !in Subtree(fs, y)
        {
          SubtreeWithin(t, y);
        }
        OrderedAppend(fs, Hd + C, T);
        assert IdsNamed(fs, local) == Hd + C + T;
    }
  }

  /** With distinct identities, an element below the first top-level element is found there. */
  lemma FindSub(fs: seq<Node>, y: nat)
    requires fs != [] && fs[0].Element? && Unique(fs) && y in IdSet(fs[0].content)
    ensures Find(fs, y) == Find(fs[0].content, y)
  {
    assert UniqueNode(fs[0]);
  }

  // ---------------------------------------------------------------------------------------------
  // What a rewrite leaves alone

  /** Assigning the value of an element removes everything that was below it from the forest. */
  lemma {:induction false} SetValueDetaches(fs: seq<Node>, k: nat, j: nat, v: string)
    requires Unique(fs) && k in IdSet(fs) && j in IdSet(Find(fs, k).value.content)
    ensures j !in IdSet(SetValue(fs, k, v))
    ensures Find(SetValue(fs, k, v), j).None?
    decreases fs
  {
    var h := SetValueNode(fs[0], k, v);
    Single(h);
    IdSetAppend([h], SetValue(fs[1..], k, v));
    SetValueIds(fs[1..], k, v);
    assert UniqueNode(fs[0]) && Unique(fs[1..]) && NodeIds(fs[0]) !! IdSet(fs[1..]);
    match fs[0]
    case Text(_) =>
      SetValueDetaches(fs[1..], k, j, v);
    case Element(i, n, cs) =>
      if i == k {
        Single(Text(v));
      } else if k in IdSet(cs) {
        FindInside(cs, k);
        SetValueDetaches(cs, k, j, v);
      } else {
        FindInside(fs[1..], k);
        SetValueIds(cs, k, v);
        SetValueDetaches(fs[1..], k, j, v);
      }
  }

  /** Assigning the value of an element leaves every element that is neither that element, nor above
      it, nor below it, exactly as it was. */
  lemma {:induction false} SetValueElsewhere(fs: seq<Node>, k: nat, j: nat, v: string)
    requires Unique(fs) && j in IdSet(fs) && k !in NodeIds(Find(fs, j).value)
    requires k in IdSet(fs) ==> j !in IdSet(Find(fs, k).value.content)
    ensures Find(SetValue(fs, k, v), j) == Find(fs, j)
    decreases fs
  {
    var h := SetValueNode(fs[0], k, v);
    Single(h);
    FindAppend([h], SetValue(fs[1..], k, v), j);
    assert UniqueNode(fs[0]) && Unique(fs[1..]) && NodeIds(fs[0]) !! IdSet(fs[1..]);
    match fs[0]
    case Text(_) =>
      SetValueElsewhere(fs[1..], k, j, v);
    case Element(i, n, cs) =>
      if i == j {
        SetValueAbsent(cs, k, v);
      } else if j in IdSet(cs) {
        SetValueElsewhere(cs, k, j, v);
      } else {
        SetValueIds(cs, k, v);
        Single(Text(v));
        SetValueElsewhere(fs[1..], k, j, v);
      }
  }

  /** AddAfterSelf leaves every element that is not above the element it is called on exactly as it was. */
  lemma {:induction false} InsertAfterElsewhere(fs: seq<Node>, k: nat, j: nat, x: Node)
    requires Unique(fs) && j in IdSet(fs) && k !in IdSet(Find(fs, j).value.content)
    requires x.Element? && UniqueNode(x) && IdSet(x.content) == {} && x.id !in IdSet(fs)
    ensures Find(InsertAfter(fs, k, x), j) == Find(fs, j)
    decreases fs
  {
    var h := InsertAfterNode(fs[0], k, x);
    FindAppend(h, InsertAfter(fs[1..], k, x), j);
    assert UniqueNode(fs[0]) && Unique(fs[1..]) && NodeIds(fs[0]) !! IdSet(fs[1..]);
    Single(x);
    match fs[0]
    case Text(_) =>
      Single(fs[0]);
      InsertAfterElsewhere(fs[1..], k, j, x);
    case Element(i, n, cs) =>
      var e := Element(i, n, InsertAfter(cs, k, x));
      Single(e);
      FindAppend([e], [x], j);
      IdSetAppend([e], [x]);
      if i == j {
        InsertAfterAbsent(cs, k, x);
      } else if j in IdSet(cs) {
        InsertAfterElsewhere(cs, k, j, x);
      } else {
        InsertAfterIds(cs, k, x);
        InsertAfterElsewhere(fs[1..], k, j, x);
      }
  }
}
