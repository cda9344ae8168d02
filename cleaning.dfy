/** What a TagCleanup rule does to the elements it visits, and when it fails. */
module Cleaning {
  import opened Base
  import opened Strings
  import opened XTree
  import opened Platform
  import opened Options
  import opened FeedRewrite

  /** A visited element that is still in the document and has a value ends up holding exactly the trimmed
      value with the pattern's matches deleted; it keeps its name. An empty value leaves the document
      alone, and an invalid pattern is an error only when there is such a value to clean. */
  lemma CleanupElementEffect(d: Doc, k: nat, rule: TagCleanupOptions, P: Platform)
    requires d.Valid() && Find(d.nodes, k).Some?
    ensures var e := Find(d.nodes, k).value;
      var r := CleanupElement(d, k, rule, P);
      if Value(e) == "" then r == Ok(d)
      else if !P.isValidPattern(rule.cleanupPattern) then r == Err(InvalidPattern(rule.cleanupPattern))
      else
        var v := Trim(P.regexDelete(Value(e), rule.cleanupPattern));
        && r.Ok? && r.value.next == d.next && r.value.nodes == SetValue(d.nodes, k, v)
        && Find(r.value.nodes, k) == Some(Element(k, e.name, [Text(v)]))
        && Value(Find(r.value.nodes, k).value) == v
  {
    var e := Find(d.nodes, k).value;
    if Value(e) != "" && P.isValidPattern(rule.cleanupPattern) {
      CleanupElementCleans(d, k, rule, P);
    }
  }

  /** A visit leaves every element that is neither the visited element, nor above it, nor below it,
      exactly as it was. */
  lemma CleanupElementFrame(d: Doc, k: nat, j: nat, rule: TagCleanupOptions, P: Platform)
    requires d.Valid() && Find(d.nodes, j).Some? && k !in NodeIds(Find(d.nodes, j).value)
    requires Find(d.nodes, k).Some? ==> j !in IdSet(Find(d.nodes, k).value.content)
    requires CleanupElement(d, k, rule, P).Ok?
    ensures Find(CleanupElement(d, k, rule, P).value.nodes, j) == Find(d.nodes, j)
  {
    if Find(d.nodes, k).Some? && Value(Find(d.nodes, k).value) != "" {
      CleanupElementCleans(d, k, rule, P);
      SetValueElsewhere(d.nodes, k, j, Trim(P.regexDelete(Value(Find(d.nodes, k).value), rule.cleanupPattern)));
    }
  }

  lemma CleanupElementCleans(d: Doc, k: nat, rule: TagCleanupOptions, P: Platform)
    requires Find(d.nodes, k).Some? && Value(Find(d.nodes, k).value) != "" && P.isValidPattern(rule.cleanupPattern)
    ensures var e := Find(d.nodes, k).value;
      var v := Trim(P.regexDelete(Value(e), rule.cleanupPattern));
      var r := CleanupElement(d, k, rule, P);
      && r == Ok(Doc(SetValue(d.nodes, k, v), d.next))
      && Find(r.value.nodes, k) == Some(Element(k, e.name, [Text(v)]))
      && Value(Find(r.value.nodes, k).value) == v
  {
    var e := Find(d.nodes, k).value;
    var v := Trim(P.regexDelete(Value(e), rule.cleanupPattern));
    CleanupElementAssigns(d, k, rule, P);
    AssignedValue(d.nodes, k, v);
  }

  lemma CleanupElementAssigns(d: Doc, k: nat, rule: TagCleanupOptions, P: Platform)
    requires Find(d.nodes, k).Some? && Value(Find(d.nodes, k).value) != "" && P.isValidPattern(rule.cleanupPattern)
    ensures var v := Trim(P.regexDelete(Value(Find(d.nodes, k).value), rule.cleanupPattern));
      CleanupElement(d, k, rule, P) == Ok(Doc(SetValue(d.nodes, k, v), d.next))
  {
    var e := Find(d.nodes, k).value;
    assert Find(d.nodes, k) == Some(e);
    assert !IsNullOrEmpty(Value(e));
  }

  /** Assigning a value to an element of the document makes it hold exactly that value. */
  lemma AssignedValue(fs: seq<Node>, k: nat, v: string)
    requires Find(fs, k).Some?
    ensures Find(SetValue(fs, k, v), k) == Some(Element(k, Find(fs, k).value.name, [Text(v)]))
    ensures Value(Find(SetValue(fs, k, v), k).value) == v
  {
    FindAfterSetValue(fs, k, v);
    HoldsText(k, Find(fs, k).value.name, v);
  }

  /** An element holding one text node has that text as its value. */
  lemma HoldsText(k: nat, nm: Name, v: string)
    ensures Value(Element(k, nm, [Text(v)])) == v
  {
    var c := [Text(v)];
    assert c[1..] == [];
    assert ValueOf(c[1..]) == "";
    assert ValueOf(c) == v;
  }

  /** Some element of the list is still in the document and has a non-empty value. */
  predicate SomeToClean(fs: seq<Node>, ids: seq<nat>) {
    exists i :: 0 <= i < |ids| && Find(fs, ids[i]).Some? && Value(Find(fs, ids[i]).value) != ""
  }

  /** With an invalid pattern the visits change nothing until the first element with a value, where
      Regex.Replace fails. */
  lemma {:induction false} CleanupElementsInvalid(d: Doc, ids: seq<nat>, rule: TagCleanupOptions, P: Platform)
    requires !P.isValidPattern(rule.cleanupPattern)
    ensures CleanupElements(d, ids, rule, P)
      == if SomeToClean(d.nodes, ids) then Err(InvalidPattern(rule.cleanupPattern)) else Ok(d)
    decreases |ids|
  {
    if ids != [] {
      var init := ids[..|ids| - 1];
      CleanupElementsInvalid(d, init, rule, P);
      assert SomeToClean(d.nodes, init) ==> SomeToClean(d.nodes, ids) by {
        if SomeToClean(d.nodes, init) {
          var i :| 0 <= i < |init| && Find(d.nodes, init[i]).Some? && Value(Find(d.nodes, init[i]).value) != "";
          assert ids[i] == init[i];
        }
      }
      assert SomeToClean(d.nodes, ids) ==> SomeToClean(d.nodes, init) || (Find(d.nodes, ids[|ids| - 1]).Some? && Value(Find(d.nodes, ids[|ids| - 1]).value) != "") by {
        if SomeToClean(d.nodes, ids) {
          var i :| 0 <= i < |ids| && Find(d.nodes, ids[i]).Some? && Value(Find(d.nodes, ids[i]).value) != "";
          if i < |ids| - 1 {
            assert init[i] == ids[i];
          }
        }
      }
    }
  }

  /** With a valid pattern the visits never fail. */
  lemma {:induction false} CleanupElementsValid(d: Doc, ids: seq<nat>, rule: TagCleanupOptions, P: Platform)
    requires P.isValidPattern(rule.cleanupPattern)
    ensures CleanupElements(d, ids, rule, P).Ok?
    decreases |ids|
  {
    if ids != [] {
      CleanupElementsValid(d, ids[..|ids| - 1], rule, P);
    }
  }

  /** A cleanup rule fails exactly when it is not skipped, its pattern is invalid and some element of its
      local name has a non-empty value. */
  lemma CleanupRuleFails(d: Doc, rule: TagCleanupOptions, P: Platform)
    requires d.Valid()
    ensures CleanupRule(d, rule, P).Err? <==>
      && !IsNullOrEmpty(rule.tagName) && !IsNullOrEmpty(rule.cleanupPattern)
      && !P.isValidPattern(rule.cleanupPattern)
      && exists k :: k in IdsNamed(d.nodes, rule.tagName) && Find(d.nodes, k).Some? && Value(Find(d.nodes, k).value) != ""
  {
    var ids := IdsNamed(d.nodes, rule.tagName);
    IdsNamedFound(d.nodes, rule.tagName);
    if !IsNullOrEmpty(rule.tagName) && !IsNullOrEmpty(rule.cleanupPattern) {
      if P.isValidPattern(rule.cleanupPattern) {
        CleanupElementsValid(d, ids, rule, P);
      } else {
        CleanupElementsInvalid(d, ids, rule, P);
        assert SomeToClean(d.nodes, ids) <==> exists k :: k in ids && Find(d.nodes, k).Some? && Value(Find(d.nodes, k).value) != "" by {
          if exists k :: k in ids && Find(d.nodes, k).Some? && Value(Find(d.nodes, k).value) != "" {
            var k :| k in ids && Find(d.nodes, k).Some? && Value(Find(d.nodes, k).value) != "";
            var i :| 0 <= i < |ids| && ids[i] == k;
          }
        }
      }
    }
  }

  // ---------------------------------------------------------------------------------------------
  // What a whole rule leaves in the document

  /** The text a visited element with the value `value` ends up holding. */
  function Cleaned(value: string, rule: TagCleanupOptions, P: Platform): string {
    Trim(P.regexDelete(value, rule.cleanupPattern))
  }

  /** `k` lay below an element of the list that had a value, in the document the rule started from. */
  predicate Covered(fs0: seq<Node>, ids: seq<nat>, k: nat) {
    exists m :: 0 <= m < |ids| && Find(fs0, ids[m]).Some? && k in IdSet(Find(fs0, ids[m]).value.content)
      && Value(Find(fs0, ids[m]).value) != ""
  }

  /** A visited element with a value holds its cleaned value, or has left the document with an ancestor
      that was cleaned. */
  predicate Done(fs0: seq<Node>, ids: seq<nat>, fs: seq<Node>, k: nat, rule: TagCleanupOptions, P: Platform)
    requires Find(fs0, k).Some?
  {
    match Find(fs, k)
    case None => Covered(fs0, ids, k)
    case Some(e) => e == Element(k, Find(fs0, k).value.name, [Text(Cleaned(Value(Find(fs0, k).value), rule, P))])
  }

  /** An element not yet visited is as it was, or has left the document with an ancestor that was cleaned. */
  predicate Pending(fs0: seq<Node>, ids: seq<nat>, fs: seq<Node>, k: nat) {
    match Find(fs, k)
    case None => Covered(fs0, ids, k)
    case Some(e) => Some(e) == Find(fs0, k)
  }

  /** The state after visiting the first n elements of the list. */
  predicate Visited(fs0: seq<Node>, ids: seq<nat>, n: nat, fs: seq<Node>, rule: TagCleanupOptions, P: Platform)
    requires n <= |ids|
  {
    DoneBefore(fs0, ids, n, fs, rule, P) && PendingFrom(fs0, ids, n, fs)
  }

  predicate DoneBefore(fs0: seq<Node>, ids: seq<nat>, n: nat, fs: seq<Node>, rule: TagCleanupOptions, P: Platform)
    requires n <= |ids|
  {
    forall i :: 0 <= i < n && Find(fs0, ids[i]).Some? && Value(Find(fs0, ids[i]).value) != "" ==>
      Done(fs0, ids, fs, ids[i], rule, P)
  }

  predicate PendingFrom(fs0: seq<Node>, ids: seq<nat>, n: nat, fs: seq<Node>)
    requires n <= |ids|
  {
    forall i :: n <= i < |ids| ==> Pending(fs0, ids, fs, ids[i])
  }

  /** The list a rule visits, as the search by local name gives it. */
  predicate Listed(fs0: seq<Node>, ids: seq<nat>) {
    Unique(fs0) && Ordered(fs0, ids) && forall i :: 0 <= i < |ids| ==> Find(fs0, ids[i]).Some?
  }

  /** Visiting the element at position n keeps the state described. */
  lemma CleanupStep(fs0: seq<Node>, ids: seq<nat>, n: nat, d: Doc, rule: TagCleanupOptions, P: Platform)
    requires Listed(fs0, ids) && d.Valid() && P.isValidPattern(rule.cleanupPattern)
    requires n < |ids| && Visited(fs0, ids, n, d.nodes, rule, P)
    ensures CleanupElement(d, ids[n], rule, P).Ok?
    ensures Visited(fs0, ids, n + 1, CleanupElement(d, ids[n], rule, P).value.nodes, rule, P)
  {
    var k := ids[n];
    assert Pending(fs0, ids, d.nodes, k);
    if Find(d.nodes, k).None? || Value(Find(d.nodes, k).value) == "" {
      CleanupElementSkips(d, k, rule, P);
      SkipKeepsVisited(fs0, ids, n, d.nodes, rule, P);
    } else {
      CleanupElementCleans(d, k, rule, P);
      var v := Cleaned(Value(Find(fs0, k).value), rule, P);
      OrderedAround(fs0, ids, n);
      AssignKeepsDone(fs0, ids, n, d.nodes, v, rule, P);
      AssignKeepsPending(fs0, ids, n, d.nodes, v);
    }
  }

  lemma CleanupElementSkips(d: Doc, k: nat, rule: TagCleanupOptions, P: Platform)
    requires Find(d.nodes, k).None? || Value(Find(d.nodes, k).value) == ""
    ensures CleanupElement(d, k, rule, P) == Ok(d)
  {
  }

  /** A visit that changes nothing keeps the state described. */
  lemma SkipKeepsVisited(fs0: seq<Node>, ids: seq<nat>, n: nat, fs: seq<Node>, rule: TagCleanupOptions, P: Platform)
    requires n < |ids| && Visited(fs0, ids, n, fs, rule, P) && Find(fs0, ids[n]).Some?
    requires Find(fs, ids[n]).None? || Value(Find(fs, ids[n]).value) == ""
    ensures Visited(fs0, ids, n + 1, fs, rule, P)
  {
    assert Pending(fs0, ids, fs, ids[n]);
    if Value(Find(fs0, ids[n]).value) != "" {
      assert Done(fs0, ids, fs, ids[n], rule, P);
      DoneBeforeNext(fs0, ids, n, fs, rule, P);
    }
  }


  /** Assigning the cleaned value to the element at position n completes its visit and keeps what the
      earlier visits did. */
  lemma AssignKeepsDone(fs0: seq<Node>, ids: seq<nat>, n: nat, fs: seq<Node>, v: string, rule: TagCleanupOptions, P: Platform)
    requires Unique(fs) && n < |ids| && DoneBefore(fs0, ids, n, fs, rule, P)
    requires Find(fs, ids[n]).Some? && Find(fs, ids[n]) == Find(fs0, ids[n])
    requires forall i :: 0 <= i < n ==> ids[i] != ids[n] && ids[i] !in IdSet(Find(fs, ids[n]).value.content)
    requires v == Cleaned(Value(Find(fs0, ids[n]).value), rule, P)
    ensures DoneBefore(fs0, ids, n + 1, SetValue(fs, ids[n], v), rule, P)
  {
    var k := ids[n];
    var fs' := SetValue(fs, k, v);
    forall i | 0 <= i < n && Find(fs0, ids[i]).Some? && Value(Find(fs0, ids[i]).value) != ""
      ensures Done(fs0, ids, fs', ids[i], rule, P)
    {
      DoneKept(fs0, ids, fs, ids[i], k, v, rule, P);
    }
    AssignDone(fs0, ids, fs, k, v, rule, P);
    DoneBeforeNext(fs0, ids, n, fs', rule, P);
  }

  lemma DoneBeforeNext(fs0: seq<Node>, ids: seq<nat>, n: nat, fs: seq<Node>, rule: TagCleanupOptions, P: Platform)
    requires n < |ids| && DoneBefore(fs0, ids, n, fs, rule, P)
    requires Find(fs0, ids[n]).Some? && Done(fs0, ids, fs, ids[n], rule, P)
    ensures DoneBefore(fs0, ids, n + 1, fs, rule, P)
  {
  }

  lemma AssignDone(fs0: seq<Node>, ids: seq<nat>, fs: seq<Node>, k: nat, v: string, rule: TagCleanupOptions, P: Platform)
    requires Find(fs, k).Some? && Find(fs, k) == Find(fs0, k)
    requires v == Cleaned(Value(Find(fs0, k).value), rule, P)
    ensures Done(fs0, ids, SetValue(fs, k, v), k, rule, P)
  {
    FindAfterSetValue(fs, k, v);
  }

  /** Assigning a value to the element at position n keeps every later element as it was, or takes it out
      of the document together with the assigned element's old content. */
  lemma AssignKeepsPending(fs0: seq<Node>, ids: seq<nat>, n: nat, fs: seq<Node>, v: string)
    requires Unique(fs) && n < |ids| && PendingFrom(fs0, ids, n, fs)
    requires Find(fs, ids[n]).Some? && Find(fs, ids[n]) == Find(fs0, ids[n]) && Value(Find(fs0, ids[n]).value) != ""
    requires forall i :: n < i < |ids| ==> ids[n] !in Subtree(fs0, ids[i])
    ensures PendingFrom(fs0, ids, n + 1, SetValue(fs, ids[n], v))
  {
    forall i | n + 1 <= i < |ids|
      ensures Pending(fs0, ids, SetValue(fs, ids[n], v), ids[i])
    {
      assert Pending(fs0, ids, fs, ids[i]);
      PendingKept(fs0, ids, fs, n, ids[i], v);
    }
  }

  /** What the order of the list says about the element at position n: no earlier element is it or lies
      below it, and it lies below no later element. */
  lemma OrderedAround(fs0: seq<Node>, ids: seq<nat>, n: nat)
    requires Ordered(fs0, ids) && n < |ids| && Find(fs0, ids[n]).Some?
    ensures forall i :: 0 <= i < n ==> ids[i] != ids[n] && ids[i] !in IdSet(Find(fs0, ids[n]).value.content)
    ensures forall i :: n < i < |ids| ==> ids[n] !in Subtree(fs0, ids[i])
  {
    SubtreeOf(fs0, ids[n]);
    forall i | 0 <= i < n
      ensures ids[i] != ids[n] && ids[i] !in IdSet(Find(fs0, ids[n]).value.content)
    {
      assert ids[i] !in Subtree(fs0, ids[n]);
    }
  }

  lemma SubtreeOf(fs: seq<Node>, k: nat)
    requires Find(fs, k).Some?
    ensures Subtree(fs, k) == {k} + IdSet(Find(fs, k).value.content)
  {
  }

  lemma DoneKept(fs0: seq<Node>, ids: seq<nat>, fs: seq<Node>, j: nat, k: nat, v: string,
                 rule: TagCleanupOptions, P: Platform)
    requires Unique(fs) && Find(fs0, j).Some? && Done(fs0, ids, fs, j, rule, P)
    requires Find(fs, k).Some? && j != k && j !in IdSet(Find(fs, k).value.content)
    ensures Done(fs0, ids, SetValue(fs, k, v), j, rule, P)
  {
    if Find(fs, j).Some? {
      CleanedKept(fs, j, k, Find(fs0, j).value.name, Cleaned(Value(Find(fs0, j).value), rule, P), v);
    } else {
      GoneKept(fs, j, k, v);
    }
    DoneSame(fs0, ids, fs, SetValue(fs, k, v), j, rule, P);
  }

  /** An element that holds only its cleaned text is untouched by assigning the value of another element
      that is not above it. */
  lemma CleanedKept(fs: seq<Node>, j: nat, k: nat, nm: Name, c: string, v: string)
    requires Unique(fs) && Find(fs, j) == Some(Element(j, nm, [Text(c)]))
    requires Find(fs, k).Some? && j != k && j !in IdSet(Find(fs, k).value.content)
    ensures Find(SetValue(fs, k, v), j) == Find(fs, j)
  {
    TextElement(j, nm, c);
    assert NodeIds(Element(j, nm, [Text(c)])) == {j};
    SetValueElsewhere(fs, k, j, v);
  }

  /** Assigning a value never brings back an element that is gone. */
  lemma GoneKept(fs: seq<Node>, j: nat, k: nat, v: string)
    requires Find(fs, j).None?
    ensures Find(SetValue(fs, k, v), j).None?
  {
    SetValueIds(fs, k, v);
  }

  lemma DoneSame(fs0: seq<Node>, ids: seq<nat>, fs: seq<Node>, fs': seq<Node>, j: nat, rule: TagCleanupOptions, P: Platform)
    requires Find(fs0, j).Some? && Done(fs0, ids, fs, j, rule, P) && Find(fs', j) == Find(fs, j)
    ensures Done(fs0, ids, fs', j, rule, P)
  {
  }

  lemma PendingKept(fs0: seq<Node>, ids: seq<nat>, fs: seq<Node>, n: nat, j: nat, v: string)
    requires Unique(fs) && n < |ids| && Pending(fs0, ids, fs, j)
    requires Find(fs, ids[n]).Some? && Find(fs, ids[n]) == Find(fs0, ids[n]) && Value(Find(fs0, ids[n]).value) != ""
    requires ids[n] !in Subtree(fs0, j)
    ensures Pending(fs0, ids, SetValue(fs, ids[n], v), j)
  {
    var k := ids[n];
    SetValueIds(fs, k, v);
    if Find(fs, j).Some? {
      if j in IdSet(Find(fs, k).value.content) {
        SetValueDetaches(fs, k, j, v);
      } else {
        SetValueElsewhere(fs, k, j, v);
      }
    }
  }

  /** The state after the first n visits of a rule with a valid pattern. */
  lemma {:induction false} CleanupPrefix(d0: Doc, ids: seq<nat>, n: nat, rule: TagCleanupOptions, P: Platform)
    requires d0.Valid() && Listed(d0.nodes, ids) && P.isValidPattern(rule.cleanupPattern) && n <= |ids|
    ensures CleanupElements(d0, ids[..n], rule, P).Ok?
    ensures Visited(d0.nodes, ids, n, CleanupElements(d0, ids[..n], rule, P).value.nodes, rule, P)
    decreases n
  {
    if n == 0 {
      assert ids[..0] == [];
    } else {
      CleanupPrefix(d0, ids, n - 1, rule, P);
      assert ids[..n][..n - 1] == ids[..n - 1] && ids[..n][n - 1] == ids[n - 1];
      var d := CleanupElements(d0, ids[..n - 1], rule, P).value;
      CleanupStep(d0.nodes, ids, n - 1, d, rule, P);
    }
  }

  /** What a successful rule leaves of the element `k` of the document `fs0` it started from: the element
      holds its old value with the pattern's matches deleted and then trimmed, or it has left the document
      because an element of the rule's local name above it, which had a value, was cleaned. */
  predicate CleanedOrDetached(fs0: seq<Node>, fs: seq<Node>, k: nat, rule: TagCleanupOptions, P: Platform)
    requires Find(fs0, k).Some?
  {
    match Find(fs, k)
    case Some(e) =>
      e == Element(k, Find(fs0, k).value.name, [Text(Trim(P.regexDelete(Value(Find(fs0, k).value), rule.cleanupPattern)))])
    case None =>
      exists a :: && a in IdSet(fs0) && Find(fs0, a).value.name.local == rule.tagName
                  && Value(Find(fs0, a).value) != "" && k in IdSet(Find(fs0, a).value.content)
  }

  /** A cleanup rule with an empty tag name or pattern leaves the document alone. Otherwise, when it
      succeeds, every element of its local name whose value was not empty is cleaned or detached. */
  lemma CleanupRuleCleans(d: Doc, rule: TagCleanupOptions, P: Platform)
    requires d.Valid() && CleanupRule(d, rule, P).Ok?
    ensures IsNullOrEmpty(rule.tagName) || IsNullOrEmpty(rule.cleanupPattern) ==> CleanupRule(d, rule, P) == Ok(d)
    ensures !IsNullOrEmpty(rule.tagName) && !IsNullOrEmpty(rule.cleanupPattern) ==>
      forall k :: (Find(d.nodes, k).Some? && Find(d.nodes, k).value.name.local == rule.tagName
                   && Value(Find(d.nodes, k).value) != "") ==>
        CleanedOrDetached(d.nodes, CleanupRule(d, rule, P).value.nodes, k, rule, P)
  {
    if !IsNullOrEmpty(rule.tagName) && !IsNullOrEmpty(rule.cleanupPattern) {
      var ids := IdsNamed(d.nodes, rule.tagName);
      IdsNamedFound(d.nodes, rule.tagName);
      IdsNamedOrdered(d.nodes, rule.tagName);
      if P.isValidPattern(rule.cleanupPattern) {
        CleanupPrefix(d, ids, |ids|, rule, P);
        assert ids[..|ids|] == ids;
        var r := CleanupRule(d, rule, P).value.nodes;
        forall k | Find(d.nodes, k).Some? && Find(d.nodes, k).value.name.local == rule.tagName
            && Value(Find(d.nodes, k).value) != ""
          ensures CleanedOrDetached(d.nodes, r, k, rule, P)
        {
          VisitedOutcome(d.nodes, ids, r, k, rule, P);
        }
      } else {
        CleanupElementsInvalid(d, ids, rule, P);
        forall k | Find(d.nodes, k).Some? && Find(d.nodes, k).value.name.local == rule.tagName
          ensures Value(Find(d.nodes, k).value) == ""
        {
          var i :| 0 <= i < |ids| && ids[i] == k;
        }
      }
    }
  }

  lemma VisitedOutcome(fs0: seq<Node>, ids: seq<nat>, fs: seq<Node>, k: nat, rule: TagCleanupOptions, P: Platform)
    requires Visited(fs0, ids, |ids|, fs, rule, P) && forall a :: a in ids ==> Find(fs0, a).Some? && Find(fs0, a).value.name.local == rule.tagName
    requires Find(fs0, k).Some? && k in ids && Value(Find(fs0, k).value) != ""
    ensures CleanedOrDetached(fs0, fs, k, rule, P)
  {
    var i :| 0 <= i < |ids| && ids[i] == k;
    assert Done(fs0, ids, fs, k, rule, P);
    if Find(fs, k).None? {
      var m :| 0 <= m < |ids| && Find(fs0, ids[m]).Some? && k in IdSet(Find(fs0, ids[m]).value.content)
        && Value(Find(fs0, ids[m]).value) != "";
      assert ids[m] in ids;
    }
  }
}
