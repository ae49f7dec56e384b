# Thymeleaf attribute-modifier processor, modelled in Dafny

This project models `AbstractAttributeModifierAttrProcessor.processAttribute`.
Thymeleaf's class-appending, style-appending and conditional-attribute
directives all build on this algorithm. A directive attribute found on a tag
is turned into a map from target attribute names to new values. Each new value
is merged with the target's current value by one of five `ModificationType`
strategies. The target is then either removed (when the merged value is empty
and the remove-if-empty flag is set) or set to the merged value verbatim.
Finally the directive attribute itself is removed. A `null` map is the error
the method reports itself, and it is raised before the tag is touched. A
`null` modification type makes the Java code fail in the middle of the loop;
the model does not cover that case (see "## Left out").

Files and modules:

- `wrappers.dfy` (`Wrappers`): `Option` stands in for Java's nullable strings.
  `ValueOrEmpty` reads `null` as `""`.
- `dom.dfy` (`Dom`): the tag is a class. Its attribute bag is a
  `map<string, string>` field. `GetAttributeValue` reads that field;
  `SetAttribute` and `RemoveAttribute` update it in place.
- `merging.dfy` (`Merging`): the `ModificationType` enumeration and the pure
  merge arithmetic of the `switch`, with its lemmas.
- `attribute_modifier.dfy` (`AttributeModifier`): the three abstract hooks
  are the `Hooks` datatype. The file also holds the specification functions
  (`ApplyEntry`, `ApplyEntries`, `Process`), the imperative `ProcessAttribute`
  (a loop over the map's entries that mutates the `Tag`, proved equal to
  `Process`), and the lemmas about the final tag.
- `scenarios.dfy` (`Scenarios`): concrete directive occurrences worked through
  the model.

Modelling decisions:

- The hooks are total functions. Each receives the tag's attributes as they
  are at the moment of the call, plus the directive attribute's name. The
  evaluation context `Arguments` is whatever the function closes over.
  `getModificationType` and `removeAttributeIfEmpty` are called inside the
  loop, so they see the writes of the earlier entries, as in the Java code.
- The `Map` returned by `getModifiedAttributeValues` is an
  `Option<seq<Entry>>`. `None` is a `null` map, and the sequence order is the
  `entrySet()` iteration order. An entry's value is an `Option<string>`, so a
  `null` value can be expressed.
- Java map keys are distinct. Only the lemmas that describe the final value of
  each target (`ApplyEntriesAt`, `ProcessTarget`) require distinct names. The
  method and `Process` handle any sequence of entries. When a name repeats, the
  later entry reads the value the earlier one wrote and merges with it.
  The attribute's final value is the last such entry's write.
- The thrown `AttrProcessorException` is the result `Error(message)`, and its
  message is modelled character for character. `ProcessorResult.OK` is `Ok`.

## Model

| member | source | states |
|---|---|---|
| `AttributeModifier.NullValueReadsAsEmpty` | src/main/java/org/thymeleaf/processor/attr/AbstractAttributeModifierAttrProcessor.java:81-83 | an entry whose new value is null changes the tag exactly as the same entry with new value "" does |
| `AttributeModifier.NullValuesReadAsEmpty` | src/main/java/org/thymeleaf/processor/attr/AbstractAttributeModifierAttrProcessor.java:68-83 | writing every null value of the map as "" leaves the outcome of the whole loop unchanged, for any hooks |
| `AttributeModifier.MissingCurrentReadsAsEmpty` | src/main/java/org/thymeleaf/processor/attr/AbstractAttributeModifierAttrProcessor.java:72-79 | a target the tag does not have is merged as though its current value were "" |
| `Dom.Tag.GetAttributeValue` | src/main/java/org/thymeleaf/processor/attr/AbstractAttributeModifierAttrProcessor.java:72 | returns the attribute's value, or null when the tag lacks it, and leaves the tag unchanged |
| `Dom.Tag.SetAttribute` | src/main/java/org/thymeleaf/processor/attr/AbstractAttributeModifierAttrProcessor.java:119 | the attribute now has exactly the given value, and no other attribute changes |
| `Dom.Tag.RemoveAttribute` | src/main/java/org/thymeleaf/processor/attr/AbstractAttributeModifierAttrProcessor.java:117 | the attribute is gone, and no other attribute changes |
| `Merging.Merge` | src/main/java/org/thymeleaf/processor/attr/AbstractAttributeModifierAttrProcessor.java:86-109 | SUBSTITUTION yields the new value; APPEND/APPEND_WITH_SPACE lay out current, separator, new; PREPEND/PREPEND_WITH_SPACE lay out new, separator, current, each part recoverable by position |
| `Merging.MergeKeepsCharacters` | src/main/java/org/thymeleaf/processor/attr/AbstractAttributeModifierAttrProcessor.java:86-115 | apart from SUBSTITUTION, the merged value holds exactly the characters of both values plus the separator: nothing is trimmed or dropped |
| `Merging.MergeEmptyIff` | src/main/java/org/thymeleaf/processor/attr/AbstractAttributeModifierAttrProcessor.java:86-116 | the merged value is "" if and only if the new value is "" and either the strategy is SUBSTITUTION or the current value is "" |
| `Merging.SubstitutionDiscardsCurrent` | src/main/java/org/thymeleaf/processor/attr/AbstractAttributeModifierAttrProcessor.java:87-88 | SUBSTITUTION gives the new value whatever the current value is |
| `Merging.PlainConcatenation` | src/main/java/org/thymeleaf/processor/attr/AbstractAttributeModifierAttrProcessor.java:89-101 | APPEND is current + new and PREPEND is new + current, with no separator |
| `Merging.AppendWithSpaceSeparates` | src/main/java/org/thymeleaf/processor/attr/AbstractAttributeModifierAttrProcessor.java:92-98 | APPEND_WITH_SPACE is current + " " + new if and only if current is non-empty; with an empty current it is the new value alone |
| `Merging.PrependWithSpaceSeparates` | src/main/java/org/thymeleaf/processor/attr/AbstractAttributeModifierAttrProcessor.java:102-108 | PREPEND_WITH_SPACE is new + " " + current if and only if current is non-empty; with an empty current it is the new value alone |
| `Merging.MergeRecoversNew` | src/main/java/org/thymeleaf/processor/attr/AbstractAttributeModifierAttrProcessor.java:86-109 | for a fixed current value and strategy, distinct new values give distinct merged values |
| `AttributeModifier.NullMapMessage` | src/main/java/org/thymeleaf/processor/attr/AbstractAttributeModifierAttrProcessor.java:63-66 | the error message is the fixed prefix followed by the directive attribute's name in double quotes |
| `AttributeModifier.ApplyEntry` | src/main/java/org/thymeleaf/processor/attr/AbstractAttributeModifierAttrProcessor.java:70-120 | the target is absent when the merged value is "" and the remove flag is set; otherwise it holds exactly the merged value; no other attribute changes |
| `AttributeModifier.ApplyEntries` | src/main/java/org/thymeleaf/processor/attr/AbstractAttributeModifierAttrProcessor.java:68-122 | applying the entries in order changes no attribute that is not a target, and adds no attribute outside the targets |
| `AttributeModifier.Process` | src/main/java/org/thymeleaf/processor/attr/AbstractAttributeModifierAttrProcessor.java:59-128 | the result is OK if and only if the map is non-null; a null map gives the error naming the directive attribute and leaves every attribute as it was; on OK the directive attribute is absent and every attribute that is neither a target nor the directive keeps its value |
| `AttributeModifier.ModifyAttribute` | src/main/java/org/thymeleaf/processor/attr/AbstractAttributeModifierAttrProcessor.java:70-120 | one loop iteration updates the tag exactly as `ApplyEntry` describes |
| `AttributeModifier.ProcessAttribute` | src/main/java/org/thymeleaf/processor/attr/AbstractAttributeModifierAttrProcessor.java:59-128 | the returned result and the tag's new attributes are those of `Process` on the old attributes; the loop invariant says that the tag reflects exactly the entries processed so far |
| `AttributeModifier.ApplyEntriesAppend` | src/main/java/org/thymeleaf/processor/attr/AbstractAttributeModifierAttrProcessor.java:68-122 | processing a map in two consecutive parts is processing it whole |
| `AttributeModifier.ApplyEntriesAt` | src/main/java/org/thymeleaf/processor/attr/AbstractAttributeModifierAttrProcessor.java:68-122 | with distinct names, after all entries target i is absent or holds exactly Merge(its original value, its new value, the strategy), according to the delete rule, with the hooks consulted on the tag as the earlier entries left it |
| `AttributeModifier.ProcessTarget` | src/main/java/org/thymeleaf/processor/attr/AbstractAttributeModifierAttrProcessor.java:68-126 | after a successful call, every target other than the directive attribute ends up as `ApplyEntriesAt` describes |
| `AttributeModifier.ProcessEmptyMap` | src/main/java/org/thymeleaf/processor/attr/AbstractAttributeModifierAttrProcessor.java:68-126 | an empty map succeeds and only removes the directive attribute |
| `AttributeModifier.NamesMembership` | src/main/java/org/thymeleaf/processor/attr/AbstractAttributeModifierAttrProcessor.java:68-70 | a name is a target name exactly when some entry of the map carries it |
| `Scenarios.ClassAppend` | src/main/java/org/thymeleaf/processor/attr/AbstractAttributeModifierAttrProcessor.java:92-124 | class="btn" with "active" appended with a space gives class="btn active", and the directive attribute is gone |
| `Scenarios.EmptyTitleRemoved` | src/main/java/org/thymeleaf/processor/attr/AbstractAttributeModifierAttrProcessor.java:116-117 | an empty title substituted on a tag without a title, with the remove flag set, leaves no title |
| `Scenarios.NullValueKeepsStyle` | src/main/java/org/thymeleaf/processor/attr/AbstractAttributeModifierAttrProcessor.java:81-101 | a null value prepended to style="color:red" leaves style="color:red" |
| `Scenarios.WhitespaceKept` | src/main/java/org/thymeleaf/processor/attr/AbstractAttributeModifierAttrProcessor.java:115-119 | a value of one space is written untrimmed even when the remove flag is set |
| `Scenarios.ClassAppendOnTag` | src/main/java/org/thymeleaf/processor/attr/AbstractAttributeModifierAttrProcessor.java:59-128 | the imperative processor, run on a concrete tag holding class="btn", returns OK and leaves exactly class="btn active" |
| `Scenarios.DirectiveAsTarget` | src/main/java/org/thymeleaf/processor/attr/AbstractAttributeModifierAttrProcessor.java:117-124 | a directive that rewrites its own attribute still has it removed at the end |

## Left out

- `Arguments` and expression evaluation: each hook closes over them.
- What concrete subclasses compute in `getModifiedAttributeValues`, `getModificationType` and `removeAttributeIfEmpty` (lines 132-142): these are arbitrary total functions of the tag's attributes and the names involved. They are pure, so a hook that mutates the tag or throws is not modelled.
- A `null` result of `getModificationType` is not modelled: `Hooks.modificationType` always returns one of the five strategies. In the source, a `null` strategy makes the `switch` at line 86 throw a NullPointerException in the middle of the loop. By then the writes for the earlier entries (lines 117 and 119) have happened, and the directive attribute is still present because line 124 is never reached.
- The two constructors and `IAttributeNameProcessorMatcher` / `AbstractAttrProcessor` (lines 45-52): they concern matching directives to attributes, which is not part of this model.
- `Tag` internals: attribute-name case sensitivity and attribute order are not modelled. The tag is an exact-key `map<string, string>`, and `org.thymeleaf.dom.Tag` is not part of this model.
- The `AttrProcessorException` hierarchy and `ProcessorResult` beyond the distinction between OK and an error with a message.
- In a map model, writing an attribute's existing value back is indistinguishable from leaving it alone. The model therefore does not record whether `setAttribute` was called (the null-value prepend scenario shows only the resulting value).
- A `null` key in the Java map is not modelled: entry names are always strings. The code does not reject an empty target name, and neither does the model.
