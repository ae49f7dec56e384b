/** Concrete directive occurrences, worked through the processor's model. */
module Scenarios {
  import opened Wrappers
  import opened Dom
  import opened Merging
  import opened AttributeModifier

  /** Hooks returning a fixed map, one strategy and one remove flag for every target. */
  function FixedHooks(entries: seq<Entry>, t: ModificationType, remove: bool): Hooks
  {
    Hooks((attrs: Attributes, d: string) => Some(entries),
          (attrs: Attributes, d: string, n: string) => t,
          (attrs: Attributes, d: string, n: string) => remove)
  }

  /** A one-entry map: the processor applies that entry, then removes the directive attribute. */
  lemma ProcessSingle(hooks: Hooks, attrs: Attributes, attributeName: string, e: Entry)
    requires hooks.modifiedAttributeValues(attrs, attributeName) == Some([e])
    ensures Process(hooks, attrs, attributeName) == (Ok, ApplyEntry(hooks, attrs, attributeName, e) - {attributeName})
  {
    var entries := [e];
    assert entries[..0] == [];
    assert ApplyEntries(hooks, attrs, attributeName, entries)
        == ApplyEntry(hooks, ApplyEntries(hooks, attrs, attributeName, entries[..0]), attributeName, e);
  }

  /** class="btn" with a class-appending directive adding "active": class="btn active". */
  lemma ClassAppend()
    ensures Process(FixedHooks([Entry("class", Some("active"))], AppendWithSpace, false),
                    map["class" := "btn", "th:classappend" := "'active'"], "th:classappend")
         == (Ok, map["class" := "btn active"])
  {
    var attrs := map["class" := "btn", "th:classappend" := "'active'"];
    var e := Entry("class", Some("active"));
    var hooks := FixedHooks([e], AppendWithSpace, false);
    assert Lookup(attrs, "class") == Some("btn");
    assert hooks.modificationType(attrs, "th:classappend", "class") == AppendWithSpace;
    assert !hooks.removeIfEmpty(attrs, "th:classappend", "class");
    assert MergedValue(hooks, attrs, "th:classappend", e) == "btn active" by {
      AppendWithSpaceSeparates("btn", "active");
      assert "btn" + " " + "active" == "btn active";
    }
    ProcessSingleSet(hooks, attrs, "th:classappend", e, "btn active");
    var r := attrs["class" := "btn active"] - {"th:classappend"};
    assert r.Keys == {"class"};
    assert r == map["class" := "btn active"];
  }

  /** An empty title substituted with the remove flag set leaves no title at all. */
  lemma EmptyTitleRemoved()
    ensures Process(FixedHooks([Entry("title", Some(""))], Substitution, true),
                    map["th:title" := "${t}"], "th:title")
         == (Ok, map[])
  {
    var attrs := map["th:title" := "${t}"];
    var e := Entry("title", Some(""));
    var hooks := FixedHooks([e], Substitution, true);
    ProcessSingle(hooks, attrs, "th:title", e);
    var r := ApplyEntry(hooks, attrs, "th:title", e) - {"th:title"};
    assert r == attrs - {"title"} - {"th:title"};
    assert r.Keys == {};
    assert r == map[];
  }

  /** A one-entry map that writes `v` to its target. */
  lemma ProcessSingleSet(hooks: Hooks, attrs: Attributes, attributeName: string, e: Entry, v: string)
    requires hooks.modifiedAttributeValues(attrs, attributeName) == Some([e])
    requires MergedValue(hooks, attrs, attributeName, e) == v
    requires v != "" || !hooks.removeIfEmpty(attrs, attributeName, e.name)
    ensures Process(hooks, attrs, attributeName) == (Ok, attrs[e.name := v] - {attributeName})
  {
    ProcessSingle(hooks, attrs, attributeName, e);
  }

  /** Prepending an empty value leaves the current value as it is. */
  lemma PrependNothing(current: string)
    ensures Merge(current, "", Prepend) == current
  {
    PlainConcatenation(current, "");
    assert "" + current == current;
  }

  /** A null new value prepended to style="color:red" keeps that value. */
  lemma NullValueKeepsStyle()
    ensures Process(FixedHooks([Entry("style", None)], Prepend, false),
                    map["style" := "color:red", "th:styleprepend" := "${s}"], "th:styleprepend")
         == (Ok, map["style" := "color:red"])
  {
    var attrs := map["style" := "color:red", "th:styleprepend" := "${s}"];
    var e := Entry("style", None);
    var hooks := FixedHooks([e], Prepend, false);
    assert Lookup(attrs, "style") == Some("color:red");
    PrependNothing("color:red");
    ProcessSingleSet(hooks, attrs, "th:styleprepend", e, "color:red");
    var r := attrs["style" := "color:red"] - {"th:styleprepend"};
    assert r.Keys == {"style"};
    assert r == map["style" := "color:red"];
  }

  /** A value made only of a space is written as it is, even with the remove flag set. */
  lemma WhitespaceKept()
    ensures Process(FixedHooks([Entry("alt", Some(" "))], Substitution, true),
                    map["th:alt" := "' '"], "th:alt")
         == (Ok, map["alt" := " "])
  {
    var attrs := map["th:alt" := "' '"];
    var e := Entry("alt", Some(" "));
    var hooks := FixedHooks([e], Substitution, true);
    ProcessSingleSet(hooks, attrs, "th:alt", e, " ");
    var r := attrs["alt" := " "] - {"th:alt"};
    assert r.Keys == {"alt"};
    assert r == map["alt" := " "];
  }

  /** A directive that rewrites its own attribute still has it removed afterwards. */
  lemma DirectiveAsTarget()
    ensures Process(FixedHooks([Entry("th:attr", Some("x"))], Substitution, false),
                    map["th:attr" := "${a}", "id" := "main"], "th:attr")
         == (Ok, map["id" := "main"])
  {
    var attrs := map["th:attr" := "${a}", "id" := "main"];
    var e := Entry("th:attr", Some("x"));
    var hooks := FixedHooks([e], Substitution, false);
    ProcessSingleSet(hooks, attrs, "th:attr", e, "x");
    var r := attrs["th:attr" := "x"] - {"th:attr"};
    assert r.Keys == {"id"};
    assert r == map["id" := "main"];
  }

  /** The class-appending directive run by the imperative processor on a concrete tag. */
  method ClassAppendOnTag() returns (result: ProcessorResult, attributes: Attributes)
    ensures result == Ok
    ensures attributes == map["class" := "btn active"]
  {
    var tag := new Tag(map["class" := "btn", "th:classappend" := "'active'"]);
    var hooks := FixedHooks([Entry("class", Some("active"))], AppendWithSpace, false);
    result := ProcessAttribute(hooks, tag, "th:classappend");
    attributes := tag.attributes;
    ClassAppend();
  }
}
