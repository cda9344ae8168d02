/** What one processing pass does to a parsed feed, as functions of the tree: the removal of the
    configured tags (RSSMonitorService.ProcessFeed) and the splitting and cleaning of tag content
    (RSSMonitorService.CleanupTagContent). The FeedDocument class carries out the same steps in place
    and is proved to agree with these functions. */
module FeedRewrite {
  import opened Base
  import opened Strings
  import opened XTree
  import opened Options
  import opened Platform

  /** A document under rewriting: its top-level nodes, and the identity the next new element gets. */
  datatype Doc = Doc(nodes: seq<Node>, next: nat) {
    predicate Valid() {
      WellFormed(nodes, next)
    }
  }

  // ---------------------------------------------------------------------------------------------
  // Namespaces

  /** The namespaces bound to the prefixes "xml" and "xmlns" in every document (Namespaces in XML 1.0,
      section 3). */
  const XmlNamespace: string := "http://www.w3.org/XML/1998/namespace"
  const XmlnsNamespace: string := "http://www.w3.org/2000/xmlns/"

  /** XElement.GetNamespaceOfPrefix on the root, for a non-empty prefix: "xmlns" is bound first, then
      the root's own declarations, then "xml"; any other prefix is unbound. */
  function NamespaceOfPrefix(declarations: map<string, string>, prefix: string): Option<string> {
    if prefix == "xmlns" then Some(XmlnsNamespace)
    else if prefix in declarations then Some(declarations[prefix])
    else if prefix == "xml" then Some(XmlNamespace)
    else None
  }

  /** XElement.GetDefaultNamespace on the root: the namespace of an `xmlns` declaration, or none. */
  function DefaultNamespace(declarations: map<string, string>): string {
    if "" in declarations then declarations[""] else ""
  }

  /** The document has a root element (XDocument.Root is not null). */
  predicate HasRoot(fs: seq<Node>) {
    exists j :: 0 <= j < |fs| && fs[j].Element?
  }

  // ---------------------------------------------------------------------------------------------
  // Removal of tags

  /** Which elements one entry of TagsToRemove removes. */
  datatype Selector =
    | Named(name: Name)
      /** Elements named `ns` + "link" that have no parent or whose parent's local name is not "channel". */
    | StrayLink(ns: string)

  predicate Picks(s: Selector, name: Name, parent: Parent) {
    match s
    case Named(n) => name == n
    case StrayLink(ns) => name == Name(ns, "link") && (parent.Top? || parent.name.local != "channel")
  }

  function Selection(s: Selector): (Name, Parent) -> bool {
    (name, parent) => Picks(s, name, parent)
  }

  /** No element the selector picks is anywhere in the forest. */
  predicate Absent(fs: seq<Node>, s: Selector) {
    forall q :: q in Placed(fs, Top) && q.node.Element? ==> !Picks(s, q.node.name, q.parent)
  }

  /** One entry of TagsToRemove: "link" removes the links outside a channel; "prefix:local" removes the
      elements of that local name in the namespace the root binds to the prefix, and does nothing when the
      prefix is unbound or the root is gone; any other tag removes the elements of that local name in the
      default namespace. An empty prefix and a local name that is not an NCName are errors. */
  function RemoveTag(fs: seq<Node>, declarations: map<string, string>, defaultNs: string, tag: string, P: Platform)
    : (r: Result<seq<Node>>)
    ensures r.Ok? ==> IdSet(r.value) <= IdSet(fs) && (Unique(fs) ==> Unique(r.value))
  {
    if tag == "link" then
      PruneIds(fs, Top, Selection(StrayLink(defaultNs)));
      Ok(Prune(fs, Top, Selection(StrayLink(defaultNs))))
    else if ':' in tag then
      var parts := Split(tag, ':');
      if !HasRoot(fs) then Ok(fs)
      else if parts[0] == "" then Err(InvalidPrefix)
      else match NamespaceOfPrefix(declarations, parts[0])
        case None => Ok(fs)
        case Some(ns) =>
          if !P.isNCName(parts[1]) then Err(InvalidName(parts[1]))
          else
            PruneIds(fs, Top, Selection(Named(Name(ns, parts[1]))));
            Ok(Prune(fs, Top, Selection(Named(Name(ns, parts[1])))))
    else if !P.isNCName(tag) then Err(InvalidName(tag))
    else
      PruneIds(fs, Top, Selection(Named(Name(defaultNs, tag))));
      Ok(Prune(fs, Top, Selection(Named(Name(defaultNs, tag)))))
  }

  /** The entries of TagsToRemove applied in order; the first error ends the pass. */
  function RemoveTags(fs: seq<Node>, declarations: map<string, string>, defaultNs: string, tags: seq<string>, P: Platform)
    : (r: Result<seq<Node>>)
    ensures r.Ok? ==> IdSet(r.value) <= IdSet(fs) && (Unique(fs) ==> Unique(r.value))
    decreases |tags|
  {
    if tags == [] then Ok(fs)
    else match RemoveTags(fs, declarations, defaultNs, tags[..|tags| - 1], P)
      case Err(e) => Err(e)
      case Ok(fs') => RemoveTag(fs', declarations, defaultNs, tags[|tags| - 1], P)
  }

  // ---------------------------------------------------------------------------------------------
  // Splitting tag content

  /** The template of a new tag with "$1" and then "$2" replaced by the capture groups. */
  function Substitute(template: string, g1: string, g2: string): string {
    Replace(Replace(template, "$1", g1), "$2", g2)
  }

  /** The element children of the element `pid`. */
  function ChildrenOf(fs: seq<Node>, pid: nat): seq<Node> {
    match Find(fs, pid)
    case Some(p) => p.content
    case None => []
  }

  /** One entry of NewTags for the matched element `k` under the parent `pid` (whose namespace is `pns`):
      the first child of the parent with the new tag's local name gets the trimmed value; without one, a
      new tag that has the matched element's own name assigns the element itself, and any other becomes a
      new element right after the matched element. */
  function ApplyNewTag(d: Doc, pid: nat, pns: string, k: nat, tagName: string, entry: (string, string),
                       g1: string, g2: string, P: Platform): (r: Result<Doc>)
    ensures d.Valid() && r.Ok? ==> r.value.Valid() && d.next <= r.value.next
  {
    var (newTagName, template) := entry;
    var newValue := Substitute(template, g1, g2);
    match FirstChildNamed(ChildrenOf(d.nodes, pid), newTagName)
    case Some(existing) =>
      SetValueIds(d.nodes, existing.id, Trim(newValue));
      Ok(Doc(SetValue(d.nodes, existing.id, Trim(newValue)), d.next))
    case None =>
      if newTagName == tagName then
        SetValueIds(d.nodes, k, Trim(newValue));
        Ok(Doc(SetValue(d.nodes, k, Trim(newValue)), d.next))
      else if !P.isNCName(newTagName) then Err(InvalidName(newTagName))
      else
        InsertFresh(d.nodes, d.next, k, Name(pns, newTagName), newValue);
        Ok(Doc(InsertAfter(d.nodes, k, Element(d.next, Name(pns, newTagName), [Text(newValue)])), d.next + 1))
  }

  /** The entries of NewTags in order. */
  function ApplyNewTags(d: Doc, pid: nat, pns: string, k: nat, tagName: string, entries: seq<(string, string)>,
                        g1: string, g2: string, P: Platform): (r: Result<Doc>)
    ensures d.Valid() && r.Ok? ==> r.value.Valid() && d.next <= r.value.next
    decreases |entries|
  {
    if entries == [] then Ok(d)
    else match ApplyNewTags(d, pid, pns, k, tagName, entries[..|entries| - 1], g1, g2, P)
      case Err(e) => Err(e)
      case Ok(d') => ApplyNewTag(d', pid, pns, k, tagName, entries[|entries| - 1], g1, g2, P)
  }

  /** One element of the snapshot a split rule takes. An element no longer in the document, an element
      with an empty value, a value the pattern does not match with two groups, and the root are left
      alone. */
  function SplitElement(d: Doc, k: nat, rule: TagSplitOptions, P: Platform): (r: Result<Doc>)
    ensures d.Valid() && r.Ok? ==> r.value.Valid() && d.next <= r.value.next
  {
    match Find(d.nodes, k)
    case None => Ok(d)
    case Some(e) =>
      var value := Value(e);
      if IsNullOrEmpty(value) then Ok(d)
      else
        var m := P.regexMatch(value, rule.splitPattern);
        if !(m.success && |m.groups| >= 3) then Ok(d)
        else match ParentOf(d.nodes, k)
          case None => Ok(d)
          case Some(p) => ApplyNewTags(d, p.id, p.name.ns, k, rule.tagName, rule.newTags, m.groups[1], m.groups[2], P)
  }

  function SplitElements(d: Doc, ids: seq<nat>, rule: TagSplitOptions, P: Platform): (r: Result<Doc>)
    ensures d.Valid() && r.Ok? ==> r.value.Valid() && d.next <= r.value.next
    decreases |ids|
  {
    if ids == [] then Ok(d)
    else match SplitElements(d, ids[..|ids| - 1], rule, P)
      case Err(e) => Err(e)
      case Ok(d') => SplitElement(d', ids[|ids| - 1], rule, P)
  }

  /** A rule with a blank tag name or pattern, or no new tags, is skipped. Otherwise the pattern must be
      valid, and the rule visits the elements that had its local name when it started, in document
      order. */
  function SplitRule(d: Doc, rule: TagSplitOptions, P: Platform): (r: Result<Doc>)
    ensures d.Valid() && r.Ok? ==> r.value.Valid() && d.next <= r.value.next
  {
    if IsNullOrWhiteSpace(rule.tagName) || IsNullOrWhiteSpace(rule.splitPattern) || rule.newTags == [] then Ok(d)
    else if !P.isValidPattern(rule.splitPattern) then Err(InvalidPattern(rule.splitPattern))
    else SplitElements(d, IdsNamed(d.nodes, rule.tagName), rule, P)
  }

  function SplitRules(d: Doc, rules: seq<TagSplitOptions>, P: Platform): (r: Result<Doc>)
    ensures d.Valid() && r.Ok? ==> r.value.Valid() && d.next <= r.value.next
    decreases |rules|
  {
    if rules == [] then Ok(d)
    else match SplitRules(d, rules[..|rules| - 1], P)
      case Err(e) => Err(e)
      case Ok(d') => SplitRule(d', rules[|rules| - 1], P)
  }

  // ---------------------------------------------------------------------------------------------
  // Cleaning tag content

  /** One element a cleanup rule visits: when it is still in the document and its value is not empty,
      the value loses what the pattern matches and is trimmed. */
  function CleanupElement(d: Doc, k: nat, rule: TagCleanupOptions, P: Platform): (r: Result<Doc>)
    ensures d.Valid() && r.Ok? ==> r.value.Valid() && d.next == r.value.next
  {
    match Find(d.nodes, k)
    case None => Ok(d)
    case Some(e) =>
      var value := Value(e);
      if IsNullOrEmpty(value) then Ok(d)
      else if !P.isValidPattern(rule.cleanupPattern) then Err(InvalidPattern(rule.cleanupPattern))
      else
        var v := Trim(P.regexDelete(value, rule.cleanupPattern));
        SetValueIds(d.nodes, k, v);
        Ok(Doc(SetValue(d.nodes, k, v), d.next))
  }

  function CleanupElements(d: Doc, ids: seq<nat>, rule: TagCleanupOptions, P: Platform): (r: Result<Doc>)
    ensures d.Valid() && r.Ok? ==> r.value.Valid() && d.next == r.value.next
    decreases |ids|
  {
    if ids == [] then Ok(d)
    else match CleanupElements(d, ids[..|ids| - 1], rule, P)
      case Err(e) => Err(e)
      case Ok(d') => CleanupElement(d', ids[|ids| - 1], rule, P)
  }

  /** A rule with an empty tag name or pattern is skipped; otherwise it visits the elements of its local
      name in document order. */
  function CleanupRule(d: Doc, rule: TagCleanupOptions, P: Platform): (r: Result<Doc>)
    ensures d.Valid() && r.Ok? ==> r.value.Valid() && d.next == r.value.next
  {
    if IsNullOrEmpty(rule.tagName) || IsNullOrEmpty(rule.cleanupPattern) then Ok(d)
    else CleanupElements(d, IdsNamed(d.nodes, rule.tagName), rule, P)
  }

  function CleanupRules(d: Doc, rules: seq<TagCleanupOptions>, P: Platform): (r: Result<Doc>)
    ensures d.Valid() && r.Ok? ==> r.value.Valid() && d.next == r.value.next
    decreases |rules|
  {
    if rules == [] then Ok(d)
    else match CleanupRules(d, rules[..|rules| - 1], P)
      case Err(e) => Err(e)
      case Ok(d') => CleanupRule(d', rules[|rules| - 1], P)
  }

  // ---------------------------------------------------------------------------------------------
  // The whole pass

  /** CleanupTagContent: every split rule, then every cleanup rule. */
  function CleanupTagContent(d: Doc, options: RSSFilterOptions, P: Platform): (r: Result<Doc>)
    ensures d.Valid() && r.Ok? ==> r.value.Valid() && d.next <= r.value.next
  {
    match SplitRules(d, options.tagSplit, P)
    case Err(e) => Err(e)
    case Ok(d') => CleanupRules(d', options.tagCleanup, P)
  }

  /** ProcessFeed: the removals, then, when CleanupTags is set, the content rules. A missing
      TagsToRemove array is an error. */
  function ProcessFeed(d: Doc, declarations: map<string, string>, defaultNs: string, options: RSSFilterOptions,
                       P: Platform): (r: Result<Doc>)
    ensures d.Valid() && r.Ok? ==> r.value.Valid() && d.next <= r.value.next
  {
    match options.tagsToRemove
    case None => Err(NullTagList)
    case Some(tags) =>
      match RemoveTags(d.nodes, declarations, defaultNs, tags, P)
      case Err(e) => Err(e)
      case Ok(fs) =>
        var d' := Doc(fs, d.next);
        if options.cleanupTags then CleanupTagContent(d', options, P) else Ok(d')
  }

  // ---------------------------------------------------------------------------------------------
  // The first error ends each pass: once a prefix of the list fails, the whole list fails the same way.

  lemma {:induction false} RemoveTagsStops(fs: seq<Node>, declarations: map<string, string>, defaultNs: string, xs: seq<string>, i: nat, P: Platform)
    requires i <= |xs| && RemoveTags(fs, declarations, defaultNs, xs[..i], P).Err?
    ensures RemoveTags(fs, declarations, defaultNs, xs, P) == RemoveTags(fs, declarations, defaultNs, xs[..i], P)
    decreases |xs|
  {
    if i < |xs| {
      assert xs[..|xs| - 1][..i] == xs[..i];
      RemoveTagsStops(fs, declarations, defaultNs, xs[..|xs| - 1], i, P);
    } else {
      assert xs[..i] == xs;
    }
  }

  lemma {:induction false} ApplyNewTagsStops(d: Doc, pid: nat, pns: string, k: nat, tagName: string, xs: seq<(string, string)>, i: nat, g1: string, g2: string, P: Platform)
    requires i <= |xs| && ApplyNewTags(d, pid, pns, k, tagName, xs[..i], g1, g2, P).Err?
    ensures ApplyNewTags(d, pid, pns, k, tagName, xs, g1, g2, P) == ApplyNewTags(d, pid, pns, k, tagName, xs[..i], g1, g2, P)
    decreases |xs|
  {
    if i < |xs| {
      assert xs[..|xs| - 1][..i] == xs[..i];
      ApplyNewTagsStops(d, pid, pns, k, tagName, xs[..|xs| - 1], i, g1, g2, P);
    } else {
      assert xs[..i] == xs;
    }
  }

  lemma {:induction false} SplitElementsStops(d: Doc, xs: seq<nat>, i: nat, rule: TagSplitOptions, P: Platform)
    requires i <= |xs| && SplitElements(d, xs[..i], rule, P).Err?
    ensures SplitElements(d, xs, rule, P) == SplitElements(d, xs[..i], rule, P)
    decreases |xs|
  {
    if i < |xs| {
      assert xs[..|xs| - 1][..i] == xs[..i];
      SplitElementsStops(d, xs[..|xs| - 1], i, rule, P);
    } else {
      assert xs[..i] == xs;
    }
  }

  lemma {:induction false} SplitRulesStops(d: Doc, xs: seq<TagSplitOptions>, i: nat, P: Platform)
    requires i <= |xs| && SplitRules(d, xs[..i], P).Err?
    ensures SplitRules(d, xs, P) == SplitRules(d, xs[..i], P)
    decreases |xs|
  {
    if i < |xs| {
      assert xs[..|xs| - 1][..i] == xs[..i];
      SplitRulesStops(d, xs[..|xs| - 1], i, P);
    } else {
      assert xs[..i] == xs;
    }
  }

  lemma {:induction false} CleanupElementsStops(d: Doc, xs: seq<nat>, i: nat, rule: TagCleanupOptions, P: Platform)
    requires i <= |xs| && CleanupElements(d, xs[..i], rule, P).Err?
    ensures CleanupElements(d, xs, rule, P) == CleanupElements(d, xs[..i], rule, P)
    decreases |xs|
  {
    if i < |xs| {
      assert xs[..|xs| - 1][..i] == xs[..i];
      CleanupElementsStops(d, xs[..|xs| - 1], i, rule, P);
    } else {
      assert xs[..i] == xs;
    }
  }

  lemma {:induction false} CleanupRulesStops(d: Doc, xs: seq<TagCleanupOptions>, i: nat, P: Platform)
    requires i <= |xs| && CleanupRules(d, xs[..i], P).Err?
    ensures CleanupRules(d, xs, P) == CleanupRules(d, xs[..i], P)
    decreases |xs|
  {
    if i < |xs| {
      assert xs[..|xs| - 1][..i] == xs[..i];
      CleanupRulesStops(d, xs[..|xs| - 1], i, P);
    } else {
      assert xs[..i] == xs;
    }
  }
}
