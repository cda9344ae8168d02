/** The parsed feed as the service edits it: an XDocument whose tree the removal, split and cleanup
    loops change in place. */
module Document {
  import opened Base
  import opened Strings
  import opened XTree
  import opened Options
  import opened Platform
  import opened FeedRewrite

  class FeedDocument {
    /** The top-level nodes of the document; the root is the element among them. */
    var nodes: seq<Node>
    /** The identity the next element created in this document gets. */
    var nextId: nat
    /** The namespace declarations on the root as parsed, by prefix. */
    const declarations: map<string, string>

    ghost predicate Valid()
      reads this
    {
      WellFormed(nodes, nextId)
    }

    function State(): Doc
      reads this
    {
      Doc(nodes, nextId)
    }

    /** The document XDocument.Parse built. */
    constructor (parsed: Forest, declarations: map<string, string>)
      ensures Valid() && nodes == parsed && nextId == Bound(parsed) && this.declarations == declarations
    {
      nodes := parsed;
      nextId := Bound(parsed);
      this.declarations := declarations;
    }

    /** One entry of TagsToRemove; each case is one call of Extensions.Remove on the selected elements. */
    method RemoveTag(tag: string, defaultNs: string, P: Platform) returns (o: Outcome)
      requires Valid()
      modifies this
      ensures Valid() && nextId == old(nextId)
      ensures match FeedRewrite.RemoveTag(old(nodes), declarations, defaultNs, tag, P)
        case Ok(fs) => o == Pass && nodes == fs
        case Err(e) => o == Fail(e) && nodes == old(nodes)
    {
      o := Pass;
      if tag == "link" {
        PruneIds(nodes, Top, Selection(StrayLink(defaultNs)));
        nodes := Prune(nodes, Top, Selection(StrayLink(defaultNs)));
        return;
      }
      if ':' in tag {
        var parts := Split(tag, ':');
        if !HasRoot(nodes) {
          return;
        }
        if parts[0] == "" {
          return Fail(InvalidPrefix);
        }
        var ns := NamespaceOfPrefix(declarations, parts[0]);
        if ns.Some? {
          if !P.isNCName(parts[1]) {
            return Fail(InvalidName(parts[1]));
          }
          PruneIds(nodes, Top, Selection(Named(Name(ns.value, parts[1]))));
          nodes := Prune(nodes, Top, Selection(Named(Name(ns.value, parts[1]))));
        }
      } else {
        if !P.isNCName(tag) {
          return Fail(InvalidName(tag));
        }
        PruneIds(nodes, Top, Selection(Named(Name(defaultNs, tag))));
        nodes := Prune(nodes, Top, Selection(Named(Name(defaultNs, tag))));
      }
    }

    /** RSSMonitorService.ProcessFeed: the removals, then the content rules when CleanupTags is set. On an
        error the document is abandoned, so only the error is specified. */
    method ProcessFeed(defaultNs: string, options: RSSFilterOptions, P: Platform) returns (o: Outcome)
      requires Valid()
      modifies this
      ensures Valid()
      ensures match FeedRewrite.ProcessFeed(old(State()), declarations, defaultNs, options, P)
        case Ok(d) => o == Pass && State() == d
        case Err(e) => o == Fail(e)
    {
      if options.tagsToRemove.None? {
        return Fail(NullTagList);
      }
      o := RemoveTags(options.tagsToRemove.value, defaultNs, P);
      if o.Pass? && options.cleanupTags {
        o := CleanupTagContent(options, P);
      }
    }

    /** The removal loop of ProcessFeed: the entries of TagsToRemove in order. */
    method RemoveTags(tags: seq<string>, defaultNs: string, P: Platform) returns (o: Outcome)
      requires Valid()
      modifies this
      ensures Valid() && nextId == old(nextId)
      ensures match FeedRewrite.RemoveTags(old(nodes), declarations, defaultNs, tags, P)
        case Ok(fs) => o == Pass && nodes == fs
        case Err(e) => o == Fail(e)
    {
      var i := 0;
      while i < |tags|
        invariant i <= |tags| && Valid() && nextId == old(nextId)
        invariant FeedRewrite.RemoveTags(old(nodes), declarations, defaultNs, tags[..i], P) == Ok(nodes)
      {
        assert tags[..i + 1][..i] == tags[..i];
        o := RemoveTag(tags[i], defaultNs, P);
        if o.Fail? {
          RemoveTagsStops(old(nodes), declarations, defaultNs, tags, i + 1, P);
          return;
        }
        i := i + 1;
      }
      assert tags[..i] == tags;
      o := Pass;
    }

    /** RSSMonitorService.CleanupTagContent: every split rule, then every cleanup rule. */
    method CleanupTagContent(options: RSSFilterOptions, P: Platform) returns (o: Outcome)
      requires Valid()
      modifies this
      ensures Valid()
      ensures match FeedRewrite.CleanupTagContent(old(State()), options, P)
        case Ok(d) => o == Pass && State() == d
        case Err(e) => o == Fail(e)
    {
      o := SplitTags(options.tagSplit, P);
      if o.Pass? {
        o := CleanupTags(options.tagCleanup, P);
      }
    }

    /** The first loop of CleanupTagContent: the TagSplit rules in order. */
    method SplitTags(rules: seq<TagSplitOptions>, P: Platform) returns (o: Outcome)
      requires Valid()
      modifies this
      ensures Valid()
      ensures match SplitRules(old(State()), rules, P)
        case Ok(d) => o == Pass && State() == d
        case Err(e) => o == Fail(e)
    {
      var i := 0;
      while i < |rules|
        invariant i <= |rules| && Valid()
        invariant SplitRules(old(State()), rules[..i], P) == Ok(State())
      {
        assert rules[..i + 1][..i] == rules[..i];
        o := SplitTag(rules[i], P);
        if o.Fail? {
          SplitRulesStops(old(State()), rules, i + 1, P);
          return;
        }
        i := i + 1;
      }
      assert rules[..i] == rules;
      o := Pass;
    }

    /** The second loop of CleanupTagContent: the TagCleanup rules in order. */
    method CleanupTags(rules: seq<TagCleanupOptions>, P: Platform) returns (o: Outcome)
      requires Valid()
      modifies this
      ensures Valid()
      ensures match CleanupRules(old(State()), rules, P)
        case Ok(d) => o == Pass && State() == d
        case Err(e) => o == Fail(e)
    {
      var i := 0;
      while i < |rules|
        invariant i <= |rules| && Valid()
        invariant CleanupRules(old(State()), rules[..i], P) == Ok(State())
      {
        assert rules[..i + 1][..i] == rules[..i];
        o := CleanupTag(rules[i], P);
        if o.Fail? {
          CleanupRulesStops(old(State()), rules, i + 1, P);
          return;
        }
        i := i + 1;
      }
      assert rules[..i] == rules;
      o := Pass;
    }

    /** One TagSplit rule: the elements of its local name are collected first (ToList), then visited. */
    method SplitTag(rule: TagSplitOptions, P: Platform) returns (o: Outcome)
      requires Valid()
      modifies this
      ensures Valid()
      ensures match SplitRule(old(State()), rule, P)
        case Ok(d) => o == Pass && State() == d
        case Err(e) => o == Fail(e)
    {
      if IsNullOrWhiteSpace(rule.tagName) || IsNullOrWhiteSpace(rule.splitPattern) || rule.newTags == [] {
        return Pass;
      }
      if !P.isValidPattern(rule.splitPattern) {
        return Fail(InvalidPattern(rule.splitPattern));
      }
      var elements := IdsNamed(nodes, rule.tagName);
      o := SplitEach(elements, rule, P);
    }

    /** The loop of a TagSplit rule over its snapshot of matching elements. */
    method SplitEach(elements: seq<nat>, rule: TagSplitOptions, P: Platform) returns (o: Outcome)
      requires Valid()
      modifies this
      ensures Valid()
      ensures match SplitElements(old(State()), elements, rule, P)
        case Ok(d) => o == Pass && State() == d
        case Err(e) => o == Fail(e)
    {
      var i := 0;
      while i < |elements|
        invariant i <= |elements| && Valid()
        invariant SplitElements(old(State()), elements[..i], rule, P) == Ok(State())
      {
        assert elements[..i + 1][..i] == elements[..i];
        o := SplitElement(elements[i], rule, P);
        if o.Fail? {
          SplitElementsStops(old(State()), elements, i + 1, rule, P);
          return;
        }
        i := i + 1;
      }
      assert elements[..i] == elements;
      o := Pass;
    }

    /** One element of a TagSplit rule's snapshot. */
    method SplitElement(k: nat, rule: TagSplitOptions, P: Platform) returns (o: Outcome)
      requires Valid()
      modifies this
      ensures Valid()
      ensures match FeedRewrite.SplitElement(old(State()), k, rule, P)
        case Ok(d) => o == Pass && State() == d
        case Err(e) => o == Fail(e)
    {
      o := Pass;
      var element := Find(nodes, k);
      if element.None? {
        return;
      }
      var originalValue := Value(element.value);
      if IsNullOrEmpty(originalValue) {
        return;
      }
      var match_ := P.regexMatch(originalValue, rule.splitPattern);
      if !(match_.success && |match_.groups| >= 3) {
        return;
      }
      var parent := ParentOf(nodes, k);
      if parent.None? {
        return;
      }
      var p := parent.value;
      o := AddNewTags(p.id, p.name.ns, k, rule.tagName, rule.newTags, match_.groups[1], match_.groups[2], P);
    }

    /** The entries of NewTags in order, for the matched element `k` under the parent `pid`. */
    method AddNewTags(pid: nat, pns: string, k: nat, tagName: string, entries: seq<(string, string)>,
                      g1: string, g2: string, P: Platform) returns (o: Outcome)
      requires Valid()
      modifies this
      ensures Valid()
      ensures match ApplyNewTags(old(State()), pid, pns, k, tagName, entries, g1, g2, P)
        case Ok(d) => o == Pass && State() == d
        case Err(e) => o == Fail(e)
    {
      var j := 0;
      while j < |entries|
        invariant j <= |entries| && Valid()
        invariant ApplyNewTags(old(State()), pid, pns, k, tagName, entries[..j], g1, g2, P) == Ok(State())
      {
        assert entries[..j + 1][..j] == entries[..j];
        o := AddNewTag(pid, pns, k, tagName, entries[j], g1, g2, P);
        if o.Fail? {
          ApplyNewTagsStops(old(State()), pid, pns, k, tagName, entries, j + 1, g1, g2, P);
          return;
        }
        j := j + 1;
      }
      assert entries[..j] == entries;
      o := Pass;
    }

    /** One entry of NewTags for the matched element `k` under the parent `pid`, whose namespace is `pns`. */
    method AddNewTag(pid: nat, pns: string, k: nat, tagName: string, entry: (string, string), g1: string, g2: string,
                     P: Platform) returns (o: Outcome)
      requires Valid()
      modifies this
      ensures Valid()
      ensures match ApplyNewTag(old(State()), pid, pns, k, tagName, entry, g1, g2, P)
        case Ok(d) => o == Pass && State() == d
        case Err(e) => o == Fail(e)
    {
      var (newTagName, valuePattern) := entry;
      var newValue := Substitute(valuePattern, g1, g2);
      var existingTag := FirstChildNamed(ChildrenOf(nodes, pid), newTagName);
      if existingTag.Some? {
        SetValueIds(nodes, existingTag.value.id, Trim(newValue));
        nodes := SetValue(nodes, existingTag.value.id, Trim(newValue));
      } else if newTagName == tagName {
        SetValueIds(nodes, k, Trim(newValue));
        nodes := SetValue(nodes, k, Trim(newValue));
      } else {
        if !P.isNCName(newTagName) {
          return Fail(InvalidName(newTagName));
        }
        InsertFresh(nodes, nextId, k, Name(pns, newTagName), newValue);
        nodes := InsertAfter(nodes, k, Element(nextId, Name(pns, newTagName), [Text(newValue)]));
        nextId := nextId + 1;
      }
      o := Pass;
    }

    /** One TagCleanup rule. The source enumerates the matching elements lazily while it edits; the
        elements of the rule's local name are taken up front, and each is checked again when visited:
        one that an earlier edit detached, or whose value is now empty, is passed over. */
    method CleanupTag(rule: TagCleanupOptions, P: Platform) returns (o: Outcome)
      requires Valid()
      modifies this
      ensures Valid() && nextId == old(nextId)
      ensures match CleanupRule(old(State()), rule, P)
        case Ok(d) => o == Pass && State() == d
        case Err(e) => o == Fail(e)
    {
      if IsNullOrEmpty(rule.tagName) || IsNullOrEmpty(rule.cleanupPattern) {
        return Pass;
      }
      var elements := IdsNamed(nodes, rule.tagName);
      var i := 0;
      while i < |elements|
        invariant i <= |elements| && Valid() && nextId == old(nextId)
        invariant CleanupElements(old(State()), elements[..i], rule, P) == Ok(State())
      {
        assert elements[..i + 1][..i] == elements[..i];
        o := CleanupElement(elements[i], rule, P);
        if o.Fail? {
          CleanupElementsStops(old(State()), elements, i + 1, rule, P);
          return;
        }
        i := i + 1;
      }
      assert elements[..i] == elements;
      o := Pass;
    }

    /** One element a TagCleanup rule visits, checked again when it is visited. */
    method CleanupElement(k: nat, rule: TagCleanupOptions, P: Platform) returns (o: Outcome)
      requires Valid()
      modifies this
      ensures Valid() && nextId == old(nextId)
      ensures match FeedRewrite.CleanupElement(old(State()), k, rule, P)
        case Ok(d) => o == Pass && State() == d
        case Err(e) => o == Fail(e)
    {
      var element := Find(nodes, k);
      if element.None? || IsNullOrEmpty(Value(element.value)) {
        return Pass;
      }
      var originalValue := Value(element.value);
      if !P.isValidPattern(rule.cleanupPattern) {
        return Fail(InvalidPattern(rule.cleanupPattern));
      }
      var processedValue := P.regexDelete(originalValue, rule.cleanupPattern);
      SetValueIds(nodes, k, Trim(processedValue));
      nodes := SetValue(nodes, k, Trim(processedValue));
      o := Pass;
    }
  }
}
