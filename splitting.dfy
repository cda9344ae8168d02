/** What a TagSplit rule does to the children of a matched element's parent. */
module Splitting {
  import opened Base
  import opened Strings
  import opened XTree
  import opened Platform
  import opened FeedRewrite

  /** A template "$1" yields the first group, in which any "$2" is then replaced by the second group. */
  lemma SubstituteFirstGroup(g1: string, g2: string)
    ensures Substitute("$1", g1, g2) == Replace(g1, "$2", g2)
  {
    ReplaceWhole("$1", g1);
  }

  /** A template "$2" yields the second group as it is. */
  lemma SubstituteSecondGroup(g1: string, g2: string)
    ensures Substitute("$2", g1, g2) == g2
  {
    assert !Occurs("$2", "$1") by {
      assert "$2"[..2][1] != "$1"[1];
      assert !Occurs("$2"[1..], "$1");
    }
    ReplaceAbsent("$2", "$1", g1);
    ReplaceWhole("$2", g2);
  }

  /** A template without "$1" or "$2" is used as it is. */
  lemma SubstitutePlain(t: string, g1: string, g2: string)
    requires !Occurs(t, "$1") && !Occurs(t, "$2")
    ensures Substitute(t, g1, g2) == t
  {
    ReplaceAbsent(t, "$1", g1);
    ReplaceAbsent(t, "$2", g2);
  }

  /** The element `k`, whose local name is `local`, is a direct child of the element `pid`. */
  predicate ChildNamed(fs: seq<Node>, pid: nat, k: nat, local: string) {
    exists j :: 0 <= j < |ChildrenOf(fs, pid)| && IsChild(ChildrenOf(fs, pid), j, k, local)
  }

  predicate IsChild(cs: seq<Node>, j: nat, k: nat, local: string)
    requires j < |cs|
  {
    cs[j].Element? && cs[j].id == k && cs[j].name.local == local
  }

  /** The children of `pid` in a well-formed forest, and the facts about them the rewrites need. */
  lemma ChildrenFacts(fs: seq<Node>, pid: nat)
    requires Unique(fs) && pid in IdSet(fs)
    ensures Find(fs, pid).value.content == ChildrenOf(fs, pid)
    ensures Unique(ChildrenOf(fs, pid)) && IdSet(ChildrenOf(fs, pid)) <= IdSet(fs)
  {
    FindInside(fs, pid);
  }

  /** One entry of NewTags, for a matched element `k` that is a child of `pid` named `tagName`:
      - when the parent has a child with the new tag's local name, the first such child, at position j,
        is assigned the trimmed value where it stands, and nothing else among the children moves (the
        document is that assignment, so XTree.SetValueElsewhere says what else stays as it was);
      - otherwise the new tag's name differs from `tagName` (the matched element itself is such a child, so
        the branch that assigns the matched element is never taken), and a valid name yields a new element
        holding the untrimmed value at the position right after the matched element (the document is that
        insertion, so XTree.InsertAfterElsewhere says what else stays as it was), while an invalid one
        is an error. */
  lemma ApplyNewTagEffect(d: Doc, pid: nat, pns: string, k: nat, tagName: string, entry: (string, string),
                          g1: string, g2: string, P: Platform)
    requires d.Valid() && ChildNamed(d.nodes, pid, k, tagName)
    ensures var cs := ChildrenOf(d.nodes, pid);
      var v := Substitute(entry.1, g1, g2);
      var r := ApplyNewTag(d, pid, pns, k, tagName, entry, g1, g2, P);
      match FirstChildNamed(cs, entry.0)
      case Some(x) =>
        && r.Ok? && r.value.next == d.next
        && r.value.nodes == SetValue(d.nodes, x.id, Trim(v))
        && exists j :: 0 <= j < |cs| && cs[j] == x
             && ChildrenOf(r.value.nodes, pid) == cs[..j] + [Element(x.id, x.name, [Text(Trim(v))])] + cs[j + 1..]
      case None =>
        && entry.0 != tagName
        && if !P.isNCName(entry.0) then r == Err(InvalidName(entry.0))
           else
             && r.Ok? && r.value.next == d.next + 1
             && r.value.nodes == InsertAfter(d.nodes, k, Element(d.next, Name(pns, entry.0), [Text(v)]))
             && exists j :: 0 <= j < |cs| && IsChild(cs, j, k, tagName)
                  && ChildrenOf(r.value.nodes, pid) == cs[..j + 1] + [Element(d.next, Name(pns, entry.0), [Text(v)])] + cs[j + 1..]
  {
    var cs := ChildrenOf(d.nodes, pid);
    var jk :| 0 <= jk < |cs| && IsChild(cs, jk, k, tagName);
    assert pid in IdSet(d.nodes);
    match FirstChildNamed(cs, entry.0)
    case Some(x) =>
      ApplyNewTagExisting(d, pid, pns, k, tagName, entry, g1, g2, P);
    case None =>
      assert entry.0 != tagName by {
        assert !(cs[jk].Element? && cs[jk].name.local == entry.0);
      }
      if P.isNCName(entry.0) {
        ApplyNewTagInserted(d, pid, pns, k, tagName, jk, entry, g1, g2, P);
      }
  }

  lemma ApplyNewTagExisting(d: Doc, pid: nat, pns: string, k: nat, tagName: string, entry: (string, string),
                            g1: string, g2: string, P: Platform)
    requires d.Valid() && pid in IdSet(d.nodes) && FirstChildNamed(ChildrenOf(d.nodes, pid), entry.0).Some?
    ensures var cs := ChildrenOf(d.nodes, pid);
      var x := FirstChildNamed(cs, entry.0).value;
      var r := ApplyNewTag(d, pid, pns, k, tagName, entry, g1, g2, P);
      && r.Ok? && r.value.next == d.next
      && r.value.nodes == SetValue(d.nodes, x.id, Trim(Substitute(entry.1, g1, g2)))
      && exists j :: 0 <= j < |cs| && cs[j] == x
           && ChildrenOf(r.value.nodes, pid)
                == cs[..j] + [Element(x.id, x.name, [Text(Trim(Substitute(entry.1, g1, g2)))])] + cs[j + 1..]
  {
    var cs := ChildrenOf(d.nodes, pid);
    var x := FirstChildNamed(cs, entry.0).value;
    var v := Trim(Substitute(entry.1, g1, g2));
    var j :| 0 <= j < |cs| && cs[j] == x && cs[j].Element?;
    assert ApplyNewTag(d, pid, pns, k, tagName, entry, g1, g2, P) == Ok(Doc(SetValue(d.nodes, x.id, v), d.next));
    SetChild(d.nodes, pid, j, v);
  }

  lemma ApplyNewTagInserted(d: Doc, pid: nat, pns: string, k: nat, tagName: string, jk: nat, entry: (string, string),
                            g1: string, g2: string, P: Platform)
    requires d.Valid() && pid in IdSet(d.nodes)
    requires jk < |ChildrenOf(d.nodes, pid)| && IsChild(ChildrenOf(d.nodes, pid), jk, k, tagName)
    requires FirstChildNamed(ChildrenOf(d.nodes, pid), entry.0).None? && entry.0 != tagName && P.isNCName(entry.0)
    ensures var cs := ChildrenOf(d.nodes, pid);
      var r := ApplyNewTag(d, pid, pns, k, tagName, entry, g1, g2, P);
      && r.Ok? && r.value.next == d.next + 1
      && r.value.nodes == InsertAfter(d.nodes, k, Element(d.next, Name(pns, entry.0), [Text(Substitute(entry.1, g1, g2))]))
      && ChildrenOf(r.value.nodes, pid)
           == cs[..jk + 1] + [Element(d.next, Name(pns, entry.0), [Text(Substitute(entry.1, g1, g2))])] + cs[jk + 1..]
  {
    var v := Substitute(entry.1, g1, g2);
    var x := Element(d.next, Name(pns, entry.0), [Text(v)]);
    assert ApplyNewTag(d, pid, pns, k, tagName, entry, g1, g2, P) == Ok(Doc(InsertAfter(d.nodes, k, x), d.next + 1));
    InsertChild(d.nodes, d.next, pid, jk, Name(pns, entry.0), v);
  }

  /** One entry of NewTags leaves exactly as it was every element that is unrelated to the node it changes:
      for an existing child, every element neither that child, nor above it, nor below it; for a new element,
      every element not above the matched element. */
  lemma ApplyNewTagFrame(d: Doc, pid: nat, pns: string, k: nat, tagName: string, entry: (string, string),
                         g1: string, g2: string, P: Platform, j: nat)
    requires d.Valid() && ChildNamed(d.nodes, pid, k, tagName) && Find(d.nodes, j).Some?
    requires ApplyNewTag(d, pid, pns, k, tagName, entry, g1, g2, P).Ok?
    ensures var r := ApplyNewTag(d, pid, pns, k, tagName, entry, g1, g2, P).value;
      match FirstChildNamed(ChildrenOf(d.nodes, pid), entry.0)
      case Some(x) =>
        (x.id !in NodeIds(Find(d.nodes, j).value)
         && (Find(d.nodes, x.id).Some? ==> j !in IdSet(Find(d.nodes, x.id).value.content)))
        ==> Find(r.nodes, j) == Find(d.nodes, j)
      case None =>
        k !in IdSet(Find(d.nodes, j).value.content) ==> Find(r.nodes, j) == Find(d.nodes, j)
  {
    ApplyNewTagEffect(d, pid, pns, k, tagName, entry, g1, g2, P);
    var v := Substitute(entry.1, g1, g2);
    match FirstChildNamed(ChildrenOf(d.nodes, pid), entry.0)
    case Some(x) =>
      if x.id !in NodeIds(Find(d.nodes, j).value) && (Find(d.nodes, x.id).Some? ==> j !in IdSet(Find(d.nodes, x.id).value.content)) {
        SetValueElsewhere(d.nodes, x.id, j, Trim(v));
      }
    case None =>
      if k !in IdSet(Find(d.nodes, j).value.content) {
        TextElement(d.next, Name(pns, entry.0), v);
        InsertAfterElsewhere(d.nodes, k, j, Element(d.next, Name(pns, entry.0), [Text(v)]));
      }
  }

  /** Assigning the value of the child at position j of `pid` rewrites that child where it stands. */
  lemma SetChild(fs: seq<Node>, pid: nat, j: nat, v: string)
    requires Unique(fs) && pid in IdSet(fs)
    requires j < |ChildrenOf(fs, pid)| && ChildrenOf(fs, pid)[j].Element?
    ensures var cs := ChildrenOf(fs, pid);
      ChildrenOf(SetValue(fs, cs[j].id, v), pid) == cs[..j] + [Element(cs[j].id, cs[j].name, [Text(v)])] + cs[j + 1..]
  {
    var cs := ChildrenOf(fs, pid);
    ChildrenFacts(fs, pid);
    ChildAlone(cs, j);
    FindAboveSetValue(fs, pid, cs[j].id, v);
    SetValueLevel(cs, j, v);
  }

  /** A new element added after the child at position j of `pid` becomes the child at position j + 1. */
  lemma InsertChild(fs: seq<Node>, next: nat, pid: nat, j: nat, nm: Name, v: string)
    requires WellFormed(fs, next) && pid in IdSet(fs)
    requires j < |ChildrenOf(fs, pid)| && ChildrenOf(fs, pid)[j].Element?
    ensures var cs := ChildrenOf(fs, pid);
      ChildrenOf(InsertAfter(fs, cs[j].id, Element(next, nm, [Text(v)])), pid)
        == cs[..j + 1] + [Element(next, nm, [Text(v)])] + cs[j + 1..]
  {
    var cs := ChildrenOf(fs, pid);
    var x := Element(next, nm, [Text(v)]);
    ChildrenFacts(fs, pid);
    ChildAlone(cs, j);
    TextElement(next, nm, v);
    FindAboveInsertAfter(fs, pid, cs[j].id, x);
    InsertAfterLevel(cs, j, x);
  }

  /** One entry of NewTags keeps the matched element where it was among its parent's children. */
  lemma ApplyNewTagKeepsChild(d: Doc, pid: nat, pns: string, k: nat, tagName: string, entry: (string, string),
                              g1: string, g2: string, P: Platform)
    requires d.Valid() && ChildNamed(d.nodes, pid, k, tagName)
    requires ApplyNewTag(d, pid, pns, k, tagName, entry, g1, g2, P).Ok?
    ensures ChildNamed(ApplyNewTag(d, pid, pns, k, tagName, entry, g1, g2, P).value.nodes, pid, k, tagName)
  {
    var fs := d.nodes;
    var cs := ChildrenOf(fs, pid);
    var v := Substitute(entry.1, g1, g2);
    var jk :| 0 <= jk < |cs| && IsChild(cs, jk, k, tagName);
    assert pid in IdSet(fs);
    match FirstChildNamed(cs, entry.0)
    case Some(x) =>
      var j :| 0 <= j < |cs| && cs[j] == x;
      assert ApplyNewTag(d, pid, pns, k, tagName, entry, g1, g2, P).value.nodes == SetValue(fs, x.id, Trim(v));
      SetChild(fs, pid, j, Trim(v));
      KeptAtSet(cs, j, jk, Trim(v));
      assert IsChild(cs[..j] + [Element(x.id, x.name, [Text(Trim(v))])] + cs[j + 1..], jk, k, tagName);
    case None =>
      assert entry.0 != tagName by {
        assert !(cs[jk].Element? && cs[jk].name.local == entry.0);
      }
      var x := Element(d.next, Name(pns, entry.0), [Text(v)]);
      assert ApplyNewTag(d, pid, pns, k, tagName, entry, g1, g2, P).value.nodes == InsertAfter(fs, k, x);
      InsertChild(fs, d.next, pid, jk, Name(pns, entry.0), v);
      KeptAtInsert(cs, jk, x);
      assert IsChild(cs[..jk + 1] + [x] + cs[jk + 1..], jk, k, tagName);
  }

  lemma KeptAtSet(cs: seq<Node>, j: nat, jk: nat, v: string)
    requires j < |cs| && jk < |cs| && cs[j].Element? && cs[jk].Element?
    ensures var cs' := cs[..j] + [Element(cs[j].id, cs[j].name, [Text(v)])] + cs[j + 1..];
      jk < |cs'| && cs'[jk].Element? && cs'[jk].id == cs[jk].id && cs'[jk].name == cs[jk].name
  {
    var cs' := cs[..j] + [Element(cs[j].id, cs[j].name, [Text(v)])] + cs[j + 1..];
    if jk != j {
      assert cs'[jk] == cs[jk];
    }
  }

  lemma KeptAtInsert(cs: seq<Node>, jk: nat, x: Node)
    requires jk < |cs|
    ensures var cs' := cs[..jk + 1] + [x] + cs[jk + 1..]; jk < |cs'| && cs'[jk] == cs[jk]
  {
  }

  /** All entries of NewTags keep the matched element among its parent's children. */
  lemma {:induction false} ApplyNewTagsKeepsChild(d: Doc, pid: nat, pns: string, k: nat, tagName: string,
                                                  entries: seq<(string, string)>, g1: string, g2: string, P: Platform)
    requires d.Valid() && ChildNamed(d.nodes, pid, k, tagName)
    requires ApplyNewTags(d, pid, pns, k, tagName, entries, g1, g2, P).Ok?
    ensures ChildNamed(ApplyNewTags(d, pid, pns, k, tagName, entries, g1, g2, P).value.nodes, pid, k, tagName)
    decreases |entries|
  {
    if entries != [] {
      var init := entries[..|entries| - 1];
      ApplyNewTagsKeepsChild(d, pid, pns, k, tagName, init, g1, g2, P);
      var d' := ApplyNewTags(d, pid, pns, k, tagName, init, g1, g2, P).value;
      ApplyNewTagKeepsChild(d', pid, pns, k, tagName, entries[|entries| - 1], g1, g2, P);
    }
  }

  /** The branch of the split that assigns the matched element itself is never taken: whenever an entry
      has the matched element's own local name, the parent's search for an existing child with that name
      finds one (the matched element, at the latest). */
  lemma SameNameBranchNeverTaken(d: Doc, pid: nat, pns: string, k: nat, tagName: string,
                                 entries: seq<(string, string)>, i: nat, g1: string, g2: string, P: Platform)
    requires d.Valid() && ChildNamed(d.nodes, pid, k, tagName)
    requires i < |entries| && entries[i].0 == tagName
    requires ApplyNewTags(d, pid, pns, k, tagName, entries[..i], g1, g2, P).Ok?
    ensures FirstChildNamed(ChildrenOf(ApplyNewTags(d, pid, pns, k, tagName, entries[..i], g1, g2, P).value.nodes, pid),
                            tagName).Some?
  {
    ApplyNewTagsKeepsChild(d, pid, pns, k, tagName, entries[..i], g1, g2, P);
    var cs := ChildrenOf(ApplyNewTags(d, pid, pns, k, tagName, entries[..i], g1, g2, P).value.nodes, pid);
    var j :| 0 <= j < |cs| && IsChild(cs, j, k, tagName);
  }

  /** The element a split rule visits, when it has a parent, is a child of that parent under its own name. */
  lemma SplitParent(d: Doc, k: nat)
    requires d.Valid() && Find(d.nodes, k).Some? && ParentOf(d.nodes, k).Some?
    ensures ChildNamed(d.nodes, ParentOf(d.nodes, k).value.id, k, Find(d.nodes, k).value.name.local)
  {
    var p := ParentOf(d.nodes, k).value;
    ParentOfFound(d.nodes, k);
    var cs := ChildrenOf(d.nodes, p.id);
    assert cs == p.content;
    var j :| 0 <= j < |cs| && cs[j].Element? && cs[j].id == k;
    ChildrenFacts(d.nodes, p.id);
    FindAt(cs, j);
    NodeIdsAt(cs, j);
    assert k in NodeIds(cs[j]);
    FindNested(d.nodes, p.id, k);
    assert IsChild(cs, j, k, Find(d.nodes, k).value.name.local);
  }

  /** Two new tags, neither already a child of the parent, end up right after the matched element in
      reverse order of their declaration. */
  lemma NewTagsInReverseOrder(d: Doc, pid: nat, pns: string, k: nat, tagName: string,
                              a: (string, string), b: (string, string), g1: string, g2: string, P: Platform)
    requires d.Valid() && ChildNamed(d.nodes, pid, k, tagName)
    requires FirstChildNamed(ChildrenOf(d.nodes, pid), a.0).None? && FirstChildNamed(ChildrenOf(d.nodes, pid), b.0).None?
    requires a.0 != b.0 && P.isNCName(a.0) && P.isNCName(b.0)
    ensures var r := ApplyNewTags(d, pid, pns, k, tagName, [a, b], g1, g2, P);
      var cs := ChildrenOf(d.nodes, pid);
      && r.Ok? && r.value.next == d.next + 2
      && exists j :: 0 <= j < |cs| && IsChild(cs, j, k, tagName)
           && ChildrenOf(r.value.nodes, pid) == cs[..j + 1]
                + [Element(d.next + 1, Name(pns, b.0), [Text(Substitute(b.1, g1, g2))]),
                   Element(d.next, Name(pns, a.0), [Text(Substitute(a.1, g1, g2))])]
                + cs[j + 1..]
  {
    var cs := ChildrenOf(d.nodes, pid);
    var A := Element(d.next, Name(pns, a.0), [Text(Substitute(a.1, g1, g2))]);
    var B := Element(d.next + 1, Name(pns, b.0), [Text(Substitute(b.1, g1, g2))]);
    ApplyNewTagEffect(d, pid, pns, k, tagName, a, g1, g2, P);
    var d1 := ApplyNewTag(d, pid, pns, k, tagName, a, g1, g2, P).value;
    var j :| 0 <= j < |cs| && IsChild(cs, j, k, tagName) && ChildrenOf(d1.nodes, pid) == cs[..j + 1] + [A] + cs[j + 1..];
    var cs1 := ChildrenOf(d1.nodes, pid);
    ApplyNewTagKeepsChild(d, pid, pns, k, tagName, a, g1, g2, P);
    NameStillAbsent(cs, j, A, b.0);
    ApplyNewTagEffect(d1, pid, pns, k, tagName, b, g1, g2, P);
    var r1 := ApplyNewTag(d1, pid, pns, k, tagName, b, g1, g2, P);
    var j1 :| 0 <= j1 < |cs1| && IsChild(cs1, j1, k, tagName) && ChildrenOf(r1.value.nodes, pid) == cs1[..j1 + 1] + [B] + cs1[j1 + 1..];
    assert pid in IdSet(d1.nodes);
    ChildrenFacts(d1.nodes, pid);
    SecondInsert(cs, j, j1, k, tagName, A, B);
    TwoEntries(d, pid, pns, k, tagName, a, b, g1, g2, P);
  }

  lemma TwoEntries(d: Doc, pid: nat, pns: string, k: nat, tagName: string,
                   a: (string, string), b: (string, string), g1: string, g2: string, P: Platform)
    requires ApplyNewTag(d, pid, pns, k, tagName, a, g1, g2, P).Ok?
    ensures ApplyNewTags(d, pid, pns, k, tagName, [a, b], g1, g2, P)
      == ApplyNewTag(ApplyNewTag(d, pid, pns, k, tagName, a, g1, g2, P).value, pid, pns, k, tagName, b, g1, g2, P)
  {
    var one := ApplyNewTags(d, pid, pns, k, tagName, [a], g1, g2, P);
    assert one == ApplyNewTag(d, pid, pns, k, tagName, a, g1, g2, P) by {
      assert [a][..0] == [] && [a][0] == a;
      assert ApplyNewTags(d, pid, pns, k, tagName, [], g1, g2, P) == Ok(d);
    }
    assert [a, b][..1] == [a] && [a, b][1] == b;
  }

  /** Inserting an element of another name leaves a name absent among the children. */
  lemma NameStillAbsent(cs: seq<Node>, j: nat, x: Node, n: string)
    requires j < |cs| && FirstChildNamed(cs, n).None? && x.Element? && x.name.local != n
    ensures FirstChildNamed(cs[..j + 1] + [x] + cs[j + 1..], n).None?
  {
    var cs1 := cs[..j + 1] + [x] + cs[j + 1..];
    forall i | 0 <= i < |cs1|
      ensures !(cs1[i].Element? && cs1[i].name.local == n)
    {
      if i <= j {
        assert cs1[i] == cs[i];
      } else if i > j + 1 {
        assert cs1[i] == cs[i - 1];
      }
    }
  }

  /** The matched element stays at position j after the first insertion, so the second insertion goes
      right after it, in front of the first. */
  lemma SecondInsert(cs: seq<Node>, j: nat, j1: nat, k: nat, tagName: string, a: Node, b: Node)
    requires j < |cs| && IsChild(cs, j, k, tagName)
    requires Unique(cs[..j + 1] + [a] + cs[j + 1..])
    requires j1 < |cs| + 1 && IsChild(cs[..j + 1] + [a] + cs[j + 1..], j1, k, tagName)
    ensures var cs1 := cs[..j + 1] + [a] + cs[j + 1..];
      cs1[..j1 + 1] + [b] + cs1[j1 + 1..] == cs[..j + 1] + [b, a] + cs[j + 1..]
  {
    var cs1 := cs[..j + 1] + [a] + cs[j + 1..];
    assert cs1[j] == cs[j];
    PositionOfId(cs1, j, j1);
    assert cs1[..j + 1] == cs[..j + 1];
    assert cs1[j + 1..] == [a] + cs[j + 1..];
  }
}
