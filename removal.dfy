/** What the removal of TagsToRemove guarantees about the feed. */
module Removal {
  import opened Base
  import opened Strings
  import opened XTree
  import opened Platform
  import opened FeedRewrite

  /** Removing elements never brings any back: what no element satisfied before, none satisfies after. */
  lemma PruneKeepsAbsent(fs: seq<Node>, sel: (Name, Parent) -> bool, s: Selector)
    requires Absent(fs, s)
    ensures Absent(Prune(fs, Top, sel), s)
  {
    PruneCorresponds(fs, Top, sel);
    forall q | q in Placed(Prune(fs, Top, sel), Top) && q.node.Element?
      ensures !Picks(s, q.node.name, q.parent)
    {
      var o :| o in Placed(fs, Top) && o.parent == q.parent && o.node.Element? && o.node.name == q.node.name;
    }
  }

  lemma PruneMakesAbsent(fs: seq<Node>, s: Selector)
    ensures Absent(Prune(fs, Top, Selection(s)), s)
  {
    PruneSound(fs, Top, Selection(s));
  }

  /** Every outcome of one entry of TagsToRemove keeps whatever was already absent. */
  lemma RemoveTagKeepsAbsent(fs: seq<Node>, declarations: map<string, string>, defaultNs: string, tag: string,
                             P: Platform, s: Selector)
    requires Absent(fs, s) && RemoveTag(fs, declarations, defaultNs, tag, P).Ok?
    ensures Absent(RemoveTag(fs, declarations, defaultNs, tag, P).value, s)
  {
    if tag == "link" {
      PruneKeepsAbsent(fs, Selection(StrayLink(defaultNs)), s);
    } else if ':' in tag {
      var parts := Split(tag, ':');
      if HasRoot(fs) && parts[0] != "" && NamespaceOfPrefix(declarations, parts[0]).Some? {
        PruneKeepsAbsent(fs, Selection(Named(Name(NamespaceOfPrefix(declarations, parts[0]).value, parts[1]))), s);
      }
    } else {
      PruneKeepsAbsent(fs, Selection(Named(Name(defaultNs, tag))), s);
    }
  }

  /** `q` is the element `o` (same identity and name), and every link child (in namespace `ns`) of `o`
      is still a child of `q`. */
  predicate LinksKept(o: Node, q: Node, ns: string) {
    && o.Element? && q.Element? && o.id == q.id && o.name == q.name
    && forall j :: 0 <= j < |o.content| && o.content[j].Element? && o.content[j].name == Name(ns, "link") ==>
         o.content[j].id in ChildIds(q.content)
  }

  /** "link" removes every link of the default namespace that is not a direct child of a channel, and
      keeps every link child of every channel that is kept. It never fails. */
  lemma RemoveLink(fs: seq<Node>, declarations: map<string, string>, ns: string, P: Platform)
    ensures RemoveTag(fs, declarations, ns, "link", P).Ok?
    ensures Absent(RemoveTag(fs, declarations, ns, "link", P).value, StrayLink(ns))
    ensures forall q :: q in Placed(RemoveTag(fs, declarations, ns, "link", P).value, Top) ==>
      && q.node.Element?
      && (q.node.name.local == "channel" ==>
            exists o :: o in Placed(fs, Top) && LinksKept(o.node, q.node, ns))
  {
    var sel := Selection(StrayLink(ns));
    var r := Prune(fs, Top, sel);
    PruneMakesAbsent(fs, StrayLink(ns));
    PruneCorresponds(fs, Top, sel);
    forall q | q in Placed(r, Top) && q.node.Element? && q.node.name.local == "channel"
      ensures exists o :: o in Placed(fs, Top) && LinksKept(o.node, q.node, ns)
    {
      var o :| o in Placed(fs, Top) && o.parent == q.parent && o.node.Element?
        && o.node.id == q.node.id && o.node.name == q.node.name
        && q.node.content == Prune(o.node.content, Under(o.node.id, o.node.name), sel);
      var cs := o.node.content;
      PruneKeeps(cs, Under(o.node.id, o.node.name), sel);
      forall j | 0 <= j < |cs| && cs[j].Element? && cs[j].name == Name(ns, "link")
        ensures cs[j].id in ChildIds(q.node.content)
      {
        var c := Element(cs[j].id, cs[j].name, Prune(cs[j].content, Under(cs[j].id, cs[j].name), sel));
        assert c in q.node.content;
        var i :| 0 <= i < |q.node.content| && q.node.content[i] == c;
      }
    }
  }

  /** A tag without a colon (other than "link") removes every element of that local name in the default
      namespace and fails exactly when the name is not a valid XML name. */
  lemma RemovePlain(fs: seq<Node>, declarations: map<string, string>, ns: string, tag: string, P: Platform)
    requires tag != "link" && ':' !in tag
    ensures RemoveTag(fs, declarations, ns, tag, P).Err? <==> !P.isNCName(tag)
    ensures RemoveTag(fs, declarations, ns, tag, P).Ok? ==>
      Absent(RemoveTag(fs, declarations, ns, tag, P).value, Named(Name(ns, tag)))
  {
    if P.isNCName(tag) {
      PruneMakesAbsent(fs, Named(Name(ns, tag)));
    }
  }

  /** The pieces of "prefix:local" when neither part holds a colon. */
  lemma PrefixedTagParts(prefix: string, local: string)
    requires ':' !in prefix && ':' !in local
    ensures Split(prefix + ":" + local, ':') == [prefix, local]
  {
    assert Join([prefix, local], ':') == prefix + ":" + local by {
      assert [prefix, local][1..] == [local];
    }
    SplitJoin([prefix, local], ':');
  }

  /** "prefix:local" leaves the feed alone when the root is gone or the prefix is unbound, fails on an
      empty prefix and on an invalid local name, and otherwise removes every element of that local name
      in the namespace the root binds to the prefix. */
  lemma RemovePrefixed(fs: seq<Node>, declarations: map<string, string>, ns: string, prefix: string, local: string,
                       P: Platform)
    requires ':' !in prefix && ':' !in local
    ensures var r := RemoveTag(fs, declarations, ns, prefix + ":" + local, P);
      if !HasRoot(fs) then r == Ok(fs)
      else if prefix == "" then r == Err(InvalidPrefix)
      else match NamespaceOfPrefix(declarations, prefix)
        case None => r == Ok(fs)
        case Some(pns) =>
          if P.isNCName(local) then r.Ok? && Absent(r.value, Named(Name(pns, local)))
          else r == Err(InvalidName(local))
  {
    var tag := prefix + ":" + local;
    PrefixedTagParts(prefix, local);
    assert tag != "link" && ':' in tag by { assert tag[|prefix|] == ':'; }
    if HasRoot(fs) && prefix != "" && NamespaceOfPrefix(declarations, prefix).Some? && P.isNCName(local) {
      PruneMakesAbsent(fs, Named(Name(NamespaceOfPrefix(declarations, prefix).value, local)));
    }
  }

  /** A forest without an element places nothing. */
  lemma {:induction false} TextOnlyPlacesNothing(fs: seq<Node>, parent: Parent)
    requires forall j :: 0 <= j < |fs| ==> fs[j].Text?
    ensures Placed(fs, parent) == []
    decreases fs
  {
    if fs != [] {
      assert forall j :: 0 <= j < |fs[1..]| ==> fs[1..][j] == fs[j + 1];
      TextOnlyPlacesNothing(fs[1..], parent);
    }
  }

  /** Once the root is gone nothing is left to remove. */
  lemma NoRootAbsent(fs: seq<Node>, s: Selector)
    requires !HasRoot(fs)
    ensures Absent(fs, s)
  {
    TextOnlyPlacesNothing(fs, Top);
  }

  /** A "prefix:local" entry whose prefix is not empty and is bound leaves no element of that local name in
      the bound namespace, whether it removes them or finds the root gone. */
  lemma RemovePrefixedEntry(fs: seq<Node>, declarations: map<string, string>, ns: string, tag: string, P: Platform)
    requires ':' in tag && Split(tag, ':')[0] != "" && NamespaceOfPrefix(declarations, Split(tag, ':')[0]).Some?
    requires RemoveTag(fs, declarations, ns, tag, P).Ok?
    ensures Absent(RemoveTag(fs, declarations, ns, tag, P).value,
                   Named(Name(NamespaceOfPrefix(declarations, Split(tag, ':')[0]).value, Split(tag, ':')[1])))
  {
    var parts := Split(tag, ':');
    var s := Named(Name(NamespaceOfPrefix(declarations, parts[0]).value, parts[1]));
    assert tag != "link";
    if HasRoot(fs) {
      PruneMakesAbsent(fs, s);
    } else {
      NoRootAbsent(fs, s);
    }
  }

  /** After the whole list of TagsToRemove, no element named by a plain entry is left, none named by a
      "prefix:local" entry whose prefix is bound, and when "link" is listed no link outside a channel is
      left: later removals never bring back what earlier ones took. */
  lemma {:induction false} RemoveTagsSound(fs: seq<Node>, declarations: map<string, string>, ns: string,
                                           tags: seq<string>, P: Platform)
    requires RemoveTags(fs, declarations, ns, tags, P).Ok?
    ensures forall t :: t in tags && t != "link" && ':' !in t ==>
      Absent(RemoveTags(fs, declarations, ns, tags, P).value, Named(Name(ns, t)))
    ensures "link" in tags ==> Absent(RemoveTags(fs, declarations, ns, tags, P).value, StrayLink(ns))
    ensures forall t :: t in tags && ':' in t && Split(t, ':')[0] != "" && NamespaceOfPrefix(declarations, Split(t, ':')[0]).Some? ==>
      Absent(RemoveTags(fs, declarations, ns, tags, P).value,
             Named(Name(NamespaceOfPrefix(declarations, Split(t, ':')[0]).value, Split(t, ':')[1])))
    decreases |tags|
  {
    if tags != [] {
      var init, last := tags[..|tags| - 1], tags[|tags| - 1];
      RemoveTagsSound(fs, declarations, ns, init, P);
      var mid := RemoveTags(fs, declarations, ns, init, P).value;
      var r := RemoveTag(mid, declarations, ns, last, P).value;
      assert tags == init + [last];
      forall t | t in tags && t != "link" && ':' !in t
        ensures Absent(r, Named(Name(ns, t)))
      {
        if t == last {
          RemovePlain(mid, declarations, ns, t, P);
        } else {
          RemoveTagKeepsAbsent(mid, declarations, ns, last, P, Named(Name(ns, t)));
        }
      }
      forall t | t in tags && ':' in t && Split(t, ':')[0] != "" && NamespaceOfPrefix(declarations, Split(t, ':')[0]).Some?
        ensures Absent(r, Named(Name(NamespaceOfPrefix(declarations, Split(t, ':')[0]).value, Split(t, ':')[1])))
      {
        if t == last {
          RemovePrefixedEntry(mid, declarations, ns, t, P);
        } else {
          RemoveTagKeepsAbsent(mid, declarations, ns, last, P,
                               Named(Name(NamespaceOfPrefix(declarations, Split(t, ':')[0]).value, Split(t, ':')[1])));
        }
      }
      if "link" in tags {
        if last == "link" {
          RemoveLink(mid, declarations, ns, P);
        } else {
          RemoveTagKeepsAbsent(mid, declarations, ns, last, P, StrayLink(ns));
        }
      }
    }
  }
}
