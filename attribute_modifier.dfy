/**
 * The attribute-modifier processor: a directive attribute on a tag is turned
 * into new values for a set of target attributes, each merged with the
 * target's current value, and the directive attribute is then removed.
 */
module AttributeModifier {
  import opened Wrappers
  import opened Dom
  import opened Merging

  /** One entry of the new-attribute-value map; a value may be null. */
  datatype Entry = Entry(name: string, value: Option<string>)

  /**
   * What a concrete directive supplies. Each hook sees the tag's attributes
   * as they are when it is called and the directive attribute's name; the
   * evaluation context is whatever the hook closes over.
   *  - modifiedAttributeValues: the target map (None for a null map), in
   *    its iteration order;
   *  - modificationType and removeIfEmpty: per target attribute name.
   */
  datatype Hooks = Hooks(
    modifiedAttributeValues: (Attributes, string) -> Option<seq<Entry>>,
    modificationType: (Attributes, string, string) -> ModificationType,
    removeIfEmpty: (Attributes, string, string) -> bool)

  /** The processor's outcome: OK, or the exception raised for a null map. */
  datatype ProcessorResult = Ok | Error(message: string)

  const NullMapPrefix: string := "Null new attribute value map specified for: \""

  /** The message of the null-map exception; it quotes the directive attribute's name. */
  function NullMapMessage(attributeName: string): (m: string)
    ensures |m| == |NullMapPrefix| + |attributeName| + 1
    ensures m[..|NullMapPrefix|] == NullMapPrefix
    ensures m[|NullMapPrefix|..|m| - 1] == attributeName
    ensures m[|m| - 1] == '"'
  {
    NullMapPrefix + attributeName + "\""
  }

  /** The set of target attribute names of a map. */
  function Names(entries: seq<Entry>): set<string>
    decreases |entries|
  {
    if entries == [] then {}
    else Names(entries[..|entries| - 1]) + {entries[|entries| - 1].name}
  }

  /** Distinct target names, as the keys of a Java map are. */
  predicate DistinctNames(entries: seq<Entry>) {
    forall i, j :: 0 <= i < j < |entries| ==> entries[i].name != entries[j].name
  }

  /** The value written for one entry: current and new values merged, null read as "". */
  function MergedValue(hooks: Hooks, attrs: Attributes, attributeName: string, e: Entry): string {
    Merge(ValueOrEmpty(Lookup(attrs, e.name)), ValueOrEmpty(e.value),
          hooks.modificationType(attrs, attributeName, e.name))
  }

  /** Whether the entry deletes its target: an empty merged value with the remove flag set. */
  predicate Removes(hooks: Hooks, attrs: Attributes, attributeName: string, e: Entry) {
    MergedValue(hooks, attrs, attributeName, e) == "" && hooks.removeIfEmpty(attrs, attributeName, e.name)
  }

  /**
   * The tag after one entry: its target either disappears or holds exactly
   * the merged value (never trimmed); no other attribute changes.
   */
  function ApplyEntry(hooks: Hooks, attrs: Attributes, attributeName: string, e: Entry): (r: Attributes)
    ensures Lookup(r, e.name) ==
      if Removes(hooks, attrs, attributeName, e) then None
      else Some(MergedValue(hooks, attrs, attributeName, e))
    ensures forall k :: k != e.name ==> Lookup(r, k) == Lookup(attrs, k)
  {
    var merged := MergedValue(hooks, attrs, attributeName, e);
    if merged == "" && hooks.removeIfEmpty(attrs, attributeName, e.name) then
      attrs - {e.name}
    else
      attrs[e.name := merged]
  }

  /**
   * The tag after the entries, applied in order. Only target attributes can
   * change; the directive attribute is not removed here.
   */
  function ApplyEntries(hooks: Hooks, attrs: Attributes, attributeName: string, entries: seq<Entry>): (r: Attributes)
    ensures forall k :: k !in Names(entries) ==> Lookup(r, k) == Lookup(attrs, k)
    ensures r.Keys <= attrs.Keys + Names(entries)
    decreases |entries|
  {
    if entries == [] then attrs
    else
      var last := |entries| - 1;
      ApplyEntry(hooks, ApplyEntries(hooks, attrs, attributeName, entries[..last]), attributeName, entries[last])
  }

  /**
   * The whole processor on the tag's attributes: the result and the new
   * attributes. A null map fails before anything is touched; otherwise every
   * entry is applied and the directive attribute is removed.
   */
  function Process(hooks: Hooks, attrs: Attributes, attributeName: string): (out: (ProcessorResult, Attributes))
    ensures out.0.Ok? <==> hooks.modifiedAttributeValues(attrs, attributeName).Some?
    ensures out.0.Error? ==> out.0.message == NullMapMessage(attributeName) && out.1 == attrs
    ensures out.0.Ok? ==> attributeName !in out.1
    ensures out.0.Ok? ==>
      forall k :: k != attributeName && k !in Names(hooks.modifiedAttributeValues(attrs, attributeName).value) ==>
        Lookup(out.1, k) == Lookup(attrs, k)
  {
    match hooks.modifiedAttributeValues(attrs, attributeName)
    case None => (Error(NullMapMessage(attributeName)), attrs)
    case Some(entries) => (Ok, ApplyEntries(hooks, attrs, attributeName, entries) - {attributeName})
  }

  /**
   * The body of processAttribute's loop for one entry: read the current
   * value, merge, then remove the target or set it to the merged value.
   */
  method ModifyAttribute(hooks: Hooks, tag: Tag, attributeName: string, entry: Entry)
    modifies tag
    ensures tag.attributes == ApplyEntry(hooks, old(tag.attributes), attributeName, entry)
  {
    var modifiedAttributeName := entry.name;
    var modifiedAttributeValue := ValueOrEmpty(entry.value);
    var currentAttributeValue := tag.GetAttributeValue(modifiedAttributeName);
    var modificationType := hooks.modificationType(tag.attributes, attributeName, modifiedAttributeName);
    var merged := Merge(ValueOrEmpty(currentAttributeValue), modifiedAttributeValue, modificationType);
    var removeAttributeIfEmpty := hooks.removeIfEmpty(tag.attributes, attributeName, modifiedAttributeName);
    assert merged == MergedValue(hooks, tag.attributes, attributeName, entry);
    assert removeAttributeIfEmpty == hooks.removeIfEmpty(old(tag.attributes), attributeName, entry.name);
    if merged == "" && removeAttributeIfEmpty {
      tag.RemoveAttribute(modifiedAttributeName);
    } else {
      tag.SetAttribute(modifiedAttributeName, merged);
    }
  }

  /** processAttribute, updating the tag in place. */
  method ProcessAttribute(hooks: Hooks, tag: Tag, attributeName: string) returns (result: ProcessorResult)
    modifies tag
    ensures (result, tag.attributes) == Process(hooks, old(tag.attributes), attributeName)
  {
    var modifiedAttributeValues := hooks.modifiedAttributeValues(tag.attributes, attributeName);
    if modifiedAttributeValues.None? {
      return Error(NullMapMessage(attributeName));
    }
    var entries := modifiedAttributeValues.value;
    ghost var original := tag.attributes;
    var i := 0;
    while i < |entries|
      invariant 0 <= i <= |entries|
      invariant tag.attributes == ApplyEntries(hooks, original, attributeName, entries[..i])
    {
      ModifyAttribute(hooks, tag, attributeName, entries[i]);
      ApplyEntriesStep(hooks, original, attributeName, entries, i);
      i := i + 1;
    }
    ApplyEntriesWhole(hooks, original, attributeName, entries);
    tag.RemoveAttribute(attributeName);
    result := Ok;
  }

  /** Applying the first i + 1 entries is applying entry i after the first i. */
  lemma ApplyEntriesStep(hooks: Hooks, attrs: Attributes, attributeName: string, entries: seq<Entry>, i: nat)
    requires i < |entries|
    ensures ApplyEntries(hooks, attrs, attributeName, entries[..i + 1])
         == ApplyEntry(hooks, ApplyEntries(hooks, attrs, attributeName, entries[..i]), attributeName, entries[i])
  {
    assert entries[..i + 1][..i] == entries[..i];
  }

  lemma ApplyEntriesWhole(hooks: Hooks, attrs: Attributes, attributeName: string, entries: seq<Entry>)
    ensures ApplyEntries(hooks, attrs, attributeName, entries[..|entries|])
         == ApplyEntries(hooks, attrs, attributeName, entries)
  {
    assert entries[..|entries|] == entries;
  }

  /** Applying a map in two parts is applying it whole. */
  lemma {:induction false} ApplyEntriesAppend(hooks: Hooks, attrs: Attributes, attributeName: string, xs: seq<Entry>, ys: seq<Entry>)
    ensures ApplyEntries(hooks, attrs, attributeName, xs + ys)
         == ApplyEntries(hooks, ApplyEntries(hooks, attrs, attributeName, xs), attributeName, ys)
    decreases |ys|
  {
    if ys == [] {
      assert xs + ys == xs;
    } else {
      var last := |ys| - 1;
      assert (xs + ys)[..|xs + ys| - 1] == xs + ys[..last];
      ApplyEntriesAppend(hooks, attrs, attributeName, xs, ys[..last]);
    }
  }

  /** Applying a map is applying its first k entries, then the rest. */
  lemma ApplyEntriesSplit(hooks: Hooks, attrs: Attributes, attributeName: string, entries: seq<Entry>, k: nat)
    requires k <= |entries|
    ensures ApplyEntries(hooks, attrs, attributeName, entries)
         == ApplyEntries(hooks, ApplyEntries(hooks, attrs, attributeName, entries[..k]), attributeName, entries[k..])
  {
    assert entries == entries[..k] + entries[k..];
    ApplyEntriesAppend(hooks, attrs, attributeName, entries[..k], entries[k..]);
  }

  /**
   * With distinct target names, entry i reads the target's ORIGINAL value,
   * and the tag ends up with its target either absent (empty merged value,
   * remove flag set) or holding exactly the merged value. The hooks are
   * consulted on the tag as the earlier entries left it.
   */
  lemma ApplyEntriesAt(hooks: Hooks, attrs: Attributes, attributeName: string, entries: seq<Entry>, i: nat)
    requires DistinctNames(entries)
    requires i < |entries|
    ensures
      var before := ApplyEntries(hooks, attrs, attributeName, entries[..i]);
      var e := entries[i];
      var merged := Merge(ValueOrEmpty(Lookup(attrs, e.name)), ValueOrEmpty(e.value),
                          hooks.modificationType(before, attributeName, e.name));
      Lookup(ApplyEntries(hooks, attrs, attributeName, entries), e.name) ==
        if merged == "" && hooks.removeIfEmpty(before, attributeName, e.name) then None else Some(merged)
  {
    var e := entries[i];
    var before := ApplyEntries(hooks, attrs, attributeName, entries[..i]);
    var after := ApplyEntries(hooks, attrs, attributeName, entries[..i + 1]);
    var merged := MergedValue(hooks, before, attributeName, e);
    assert merged == Merge(ValueOrEmpty(Lookup(attrs, e.name)), ValueOrEmpty(e.value),
                           hooks.modificationType(before, attributeName, e.name)) by {
      NameOutside(entries, i, 0, i);
      assert entries[..i] == entries[0..i];
    }
    assert Lookup(after, e.name)
        == if Removes(hooks, before, attributeName, e) then None else Some(merged) by {
      ApplyEntriesStep(hooks, attrs, attributeName, entries, i);
    }
    assert Lookup(ApplyEntries(hooks, attrs, attributeName, entries), e.name) == Lookup(after, e.name) by {
      NameOutside(entries, i, i + 1, |entries|);
      assert entries[i + 1..] == entries[i + 1..|entries|];
      LaterEntriesKeep(hooks, attrs, attributeName, entries, i + 1, e.name);
    }
  }

  /** Entries from k on leave alone every attribute that none of them names. */
  lemma LaterEntriesKeep(hooks: Hooks, attrs: Attributes, attributeName: string, entries: seq<Entry>, k: nat, n: string)
    requires k <= |entries|
    requires n !in Names(entries[k..])
    ensures Lookup(ApplyEntries(hooks, attrs, attributeName, entries), n)
         == Lookup(ApplyEntries(hooks, attrs, attributeName, entries[..k]), n)
  {
    ApplyEntriesSplit(hooks, attrs, attributeName, entries, k);
  }

  /** A name is a target name exactly when some entry carries it. */
  lemma {:induction false} NamesMembership(entries: seq<Entry>, n: string)
    ensures n in Names(entries) <==> exists j :: 0 <= j < |entries| && entries[j].name == n
    decreases |entries|
  {
    if entries != [] {
      var last := |entries| - 1;
      var front := entries[..last];
      NamesMembership(front, n);
      if n in Names(entries) && n != entries[last].name {
        var j :| 0 <= j < |front| && front[j].name == n;
        assert entries[j].name == n;
      }
      if exists j :: 0 <= j < |entries| && entries[j].name == n {
        var j :| 0 <= j < |entries| && entries[j].name == n;
        if j < last {
          assert front[j].name == n;
        }
      }
    }
  }

  /** With distinct names, entry i's name is not among the names of a slice that leaves i out. */
  lemma NameOutside(entries: seq<Entry>, i: nat, lo: nat, hi: nat)
    requires DistinctNames(entries)
    requires i < |entries| && lo <= hi <= |entries|
    requires i < lo || hi <= i
    ensures entries[i].name !in Names(entries[lo..hi])
  {
    var slice := entries[lo..hi];
    forall j | 0 <= j < |slice|
      ensures slice[j].name != entries[i].name
    {
      assert slice[j] == entries[lo + j];
    }
    NamesMembership(slice, entries[i].name);
  }

  /**
   * After a successful call, a target other than the directive attribute is
   * absent or holds exactly the merged value of its original value and the
   * new value.
   */
  lemma ProcessTarget(hooks: Hooks, attrs: Attributes, attributeName: string, i: nat)
    requires hooks.modifiedAttributeValues(attrs, attributeName).Some?
    requires DistinctNames(hooks.modifiedAttributeValues(attrs, attributeName).value)
    requires i < |hooks.modifiedAttributeValues(attrs, attributeName).value|
    requires hooks.modifiedAttributeValues(attrs, attributeName).value[i].name != attributeName
    ensures
      var entries := hooks.modifiedAttributeValues(attrs, attributeName).value;
      var before := ApplyEntries(hooks, attrs, attributeName, entries[..i]);
      var e := entries[i];
      var merged := Merge(ValueOrEmpty(Lookup(attrs, e.name)), ValueOrEmpty(e.value),
                          hooks.modificationType(before, attributeName, e.name));
      Lookup(Process(hooks, attrs, attributeName).1, e.name) ==
        if merged == "" && hooks.removeIfEmpty(before, attributeName, e.name) then None else Some(merged)
  {
    var entries := hooks.modifiedAttributeValues(attrs, attributeName).value;
    ApplyEntriesAt(hooks, attrs, attributeName, entries, i);
  }

  /** An empty map succeeds and only removes the directive attribute. */
  lemma ProcessEmptyMap(hooks: Hooks, attrs: Attributes, attributeName: string)
    requires hooks.modifiedAttributeValues(attrs, attributeName) == Some([])
    ensures Process(hooks, attrs, attributeName) == (Ok, attrs - {attributeName})
  {
  }

  /** The map with every null value written as "". */
  function NullsAsEmpty(entries: seq<Entry>): seq<Entry>
  {
    seq(|entries|, i requires 0 <= i < |entries| => Entry(entries[i].name, Some(ValueOrEmpty(entries[i].value))))
  }

  /** A null new value has exactly the effect of "" on the tag. */
  lemma NullValueReadsAsEmpty(hooks: Hooks, attrs: Attributes, attributeName: string, name: string)
    ensures ApplyEntry(hooks, attrs, attributeName, Entry(name, None))
         == ApplyEntry(hooks, attrs, attributeName, Entry(name, Some("")))
  {
  }

  /**
   * Writing every null value of the map as "" leaves the outcome of the
   * whole loop unchanged, whatever the hooks decide.
   */
  lemma {:induction false} NullValuesReadAsEmpty(hooks: Hooks, attrs: Attributes, attributeName: string, entries: seq<Entry>)
    ensures ApplyEntries(hooks, attrs, attributeName, NullsAsEmpty(entries))
         == ApplyEntries(hooks, attrs, attributeName, entries)
    decreases |entries|
  {
    if entries != [] {
      var last := |entries| - 1;
      var cleaned := NullsAsEmpty(entries);
      NullsAsEmptyPrefix(entries, last);
      var before := ApplyEntries(hooks, attrs, attributeName, entries[..last]);
      assert ApplyEntries(hooks, attrs, attributeName, cleaned[..last]) == before by {
        NullValuesReadAsEmpty(hooks, attrs, attributeName, entries[..last]);
      }
      assert ApplyEntry(hooks, before, attributeName, cleaned[last])
          == ApplyEntry(hooks, before, attributeName, entries[last]) by {
        if entries[last].value.None? {
          NullValueReadsAsEmpty(hooks, before, attributeName, entries[last].name);
        } else {
          assert cleaned[last].value == entries[last].value;
        }
      }
      assert ApplyEntries(hooks, attrs, attributeName, cleaned)
          == ApplyEntry(hooks, ApplyEntries(hooks, attrs, attributeName, cleaned[..last]), attributeName, cleaned[last]);
    }
  }

  /**
   * Cleaning the first k entries is taking the first k cleaned entries, and
   * cleaned entry k keeps its name and carries the original value, "" for null.
   */
  lemma NullsAsEmptyPrefix(entries: seq<Entry>, k: nat)
    requires k < |entries|
    ensures |NullsAsEmpty(entries)| == |entries|
    ensures NullsAsEmpty(entries)[..k] == NullsAsEmpty(entries[..k])
    ensures NullsAsEmpty(entries)[k] == Entry(entries[k].name, Some(ValueOrEmpty(entries[k].value)))
  {
    var cleaned := NullsAsEmpty(entries);
    var front := NullsAsEmpty(entries[..k]);
    assert |cleaned[..k]| == |front| == k;
    forall j | 0 <= j < k
      ensures cleaned[..k][j] == front[j]
    {
      assert entries[..k][j] == entries[j];
    }
  }

  /** A target the tag does not have is merged as though its current value were "". */
  lemma MissingCurrentReadsAsEmpty(hooks: Hooks, attrs: Attributes, attributeName: string, e: Entry)
    requires e.name !in attrs
    ensures
      var t := hooks.modificationType(attrs, attributeName, e.name);
      var merged := Merge("", ValueOrEmpty(e.value), t);
      Lookup(ApplyEntry(hooks, attrs, attributeName, e), e.name)
        == if merged == "" && hooks.removeIfEmpty(attrs, attributeName, e.name) then None else Some(merged)
  {
  }
}
