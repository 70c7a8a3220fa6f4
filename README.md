# brambolt utilities, modelled in Dafny

This project models the small Java utility core of the brambolt library and proves properties of the model:

- `Maps`: nested configuration maps.
  - asMap builds a map from key/value pairs.
  - format renders a map.
  - merge and overwrite combine two trees.
  - segmentedGet walks a tree along a list of segments.
  - convert builds a tree from flat dotted property names.
- `Context`: a log of typed entries that tells whether anything went wrong.
- `Templates`: replaces `@name@` variables with their values.
- `Manifests`: line handling for JAR manifest text.
- `FileNames`: splits a file name at its last dot.
- `Strings`: delimited lists, and the longest length among strings.
- `Resources`: turns a package name into a resource path.

Modules:

- `Wrappers`: `Option` and `Result`.
- `StringOps`: the `java.lang.String` operations the core relies on, as functions on `seq<char>`. These are `trim`, ASCII `toLowerCase`, `startsWith`, `compareTo` order, `String.join`, `split` with a literal delimiter, `replaceAll` with a literal pattern and a quoted replacement, and `lastIndexOf`. `split` drops trailing empty pieces, as Java's does.
- `Maps`: the tree is `Node = Scalar(text) | Branch(map<string, Node>)`. The errors are `MapError`, one constructor per exception the Java code throws.
  - `AsMap`, `Merge` and `Convert` are methods with loops, like the source. `Overwrite` is a method without a loop that calls `Merge`, as `overwrite` calls `merge`.
  - Each of those four methods is proved equal to a specification function: `PairsMap`, `MergedMap`, `Overwritten` and `Build`.
  - The recursive insertion (`Insert`, `InsertTail`, `InsertValue`) is written as functions that return the extended map.
- `Contexts`: `class Context` with an `entries` sequence that its methods append to.
- `Templates`, `Manifests`, `FileNames`, `Strings`, `Resources`: one module each.

Behaviour of the Java code that is easy to miss, which the model keeps:

- `Maps.insert` with an absent property value still creates the intermediate maps, down to an empty map one level above the missing leaf. Only the leaf is skipped. This is what its Javadoc describes (Maps.java:144-147).
- `convert(properties, keys)` neither trims nor validates the segments of a property name, while `segmentedGet(map, String)` trims the key it looks up. So a name with surrounding blanks is stored under segments that a lookup by the same text does not find.
- A name of only dots splits into no segments and fails with the `IllegalArgumentException`. Its message is the literal text `Empty segments list [$name] [$map]`: Java does not fill in the `$name` and `$map` placeholders, and the model keeps that text.
- `getResourcePathForPackage` adds no leading slash. This is the one place where the code and its own comment disagree (Resources.java:42 speaks of a leading slash); the model follows the code.
- `Context.error(c, t)` calls `error(c, "...", t)`. Java resolves that call to the variable-arity `error(c, message, params)`. So the throwable becomes the single message parameter, and the entry's own throwable is null. `fatal(c, t)` does store the throwable in the entry.

## Model

| member | source | states |
|---|---|---|
| `Maps.AsMap` | src/main/java/com/brambolt/util/Maps.java:38-43 | Fails exactly when the number of parameters is odd, with the array-index error; otherwise the result is the pairs folded left to right into a map |
| `Maps.PairsMap` | src/main/java/com/brambolt/util/Maps.java:38-43 | At most one entry per pair, and the key of the last pair holds the value of the last pair |
| `Maps.PairsMapKeys` | src/main/java/com/brambolt/util/Maps.java:40-41 | The keys of the built map are exactly the parameters at even positions |
| `Maps.PairsMapLastWins` | src/main/java/com/brambolt/util/Maps.java:40-41 | When a key occurs more than once, the value after its last occurrence is the one kept |
| `Maps.Render` | src/main/java/com/brambolt/util/Maps.java:76-77 | A string renders as itself; a map renders between braces, and an empty map as `{}` |
| `Maps.Entries` | src/main/java/com/brambolt/util/Maps.java:49-52 | One `key=value` piece per key, in the order of the keys given, each with the rendering of the key's value |
| `Maps.Format` | src/main/java/com/brambolt/util/Maps.java:49-53 | An empty map formats to the empty string; a map with one key formats to that key's `key=value` piece alone, with no delimiter |
| `Maps.FormatHoldsEntry` | src/main/java/com/brambolt/util/Maps.java:49-53 | The formatted text holds the `key=value` piece of every key of the map |
| `Maps.FormatLines` | src/main/java/com/brambolt/util/Maps.java:45-47 | Formatting without a delimiter uses a newline: an empty map gives the empty string and a map with one key gives that key's piece |
| `Maps.Message` | src/main/java/com/brambolt/util/Maps.java:75-204 | Exactly the array-index and cast errors have no message of the core's own; the not-found, second-value and insertion messages begin with their fixed text followed by the key or the property name |
| `Maps.NotFoundMessage` | src/main/java/com/brambolt/util/Maps.java:105-109 | The not-found message names the key and lists the searched map's entries in ascending key order, one per line |
| `Maps.Merge` | src/main/java/com/brambolt/util/Maps.java:55-59 | Succeeds exactly when no key pairs a map with a non-map at any depth; the result is then the key-wise overwrite of the existing map by the overlay; a failure is always a map/non-map replacement conflict |
| `Maps.Overwrite` | src/main/java/com/brambolt/util/Maps.java:62-73 | Two non-maps give the second; two maps are merged; a map against a non-map, in either order, fails with the invalid-replacement error |
| `Maps.MergeUnion` | src/main/java/com/brambolt/util/Maps.java:55-57 | The merged keys are the union of both key sets; a key present on one side only keeps that side's value |
| `Maps.Compatible` | src/main/java/com/brambolt/util/Maps.java:62-73 | Overwriting can only succeed where both values are maps or both are not; two strings, or a value and itself, always can |
| `Maps.Overwritten` | src/main/java/com/brambolt/util/Maps.java:62-73 | The result is a map exactly when the overlay is; a string overlay is the result itself; two maps give a map with the keys of both |
| `Maps.MergedMap` | src/main/java/com/brambolt/util/Maps.java:55-59 | Every overlay key is in the result; an overlay string is kept as it is; each such value is a map exactly when the overlay's is |
| `Maps.MergeWithEmpty` | src/main/java/com/brambolt/util/Maps.java:55-59 | Merging with an empty map, on either side, gives the other map back |
| `Maps.OverwriteSelf` | src/main/java/com/brambolt/util/Maps.java:62-73 | A value overwritten by itself is unchanged |
| `Maps.MergeSelf` | src/main/java/com/brambolt/util/Maps.java:55-59 | A map merged with itself is unchanged |
| `Maps.OverwriteContainsOverlay` | src/main/java/com/brambolt/util/Maps.java:62-73 | Every string leaf and every map of the overlay value is found in the overwritten value |
| `Maps.MergeContainsOverlay` | src/main/java/com/brambolt/util/Maps.java:55-59 | The merged map contains the overlay: every key, each map value recursively, and each string value equal |
| `Maps.OverwriteContainsBase` | src/main/java/com/brambolt/util/Maps.java:62-73 | When the two values agree on every shared string leaf, the overwritten value also contains the existing one |
| `Maps.MergeContainsBoth` | src/main/java/com/brambolt/util/Maps.java:55-59 | Maps that agree on every shared string leaf merge without conflict, and the result contains both |
| `Maps.OverlayScalarWins` | src/main/java/com/brambolt/util/Maps.java:62-66 | A string the overlay holds at a path is what the merged map holds there |
| `Maps.OverwriteAssociative` | src/main/java/com/brambolt/util/Maps.java:62-73 | For pairwise compatible values, overwriting is associative |
| `Maps.MergeAssociative` | src/main/java/com/brambolt/util/Maps.java:55-73 | For pairwise compatible maps, merge is associative |
| `Maps.MergeOfNonConflictingMaps` | src/test/java/com/brambolt/util/MapsTest.java:32-40 | The two test maps, which share the key `c` with map values, merge, and the result contains both |
| `Maps.MergeOfScalarAndMapFails` | src/main/java/com/brambolt/util/Maps.java:63-69 | A string against a map at the same key, in either order, cannot be merged |
| `Maps.MergeOverlayPrecedence` | src/main/java/com/brambolt/util/Maps.java:66 | Two strings at one key: the overlay's string wins |
| `Maps.ThrowIfNotFound` | src/main/java/com/brambolt/util/Maps.java:105-109 | Reports an error exactly when the key is absent, and the error carries that key and the map searched |
| `Maps.SegmentedGet` | src/main/java/com/brambolt/util/Maps.java:85-103 | Walking a segment list fails only because a segment is missing or because a string stands where a map is needed |
| `Maps.SegmentedGetOrRoot` | src/main/java/com/brambolt/util/Maps.java:86-87 | A null segment list gives the whole map |
| `Maps.SegmentedGetAppend` | src/main/java/com/brambolt/util/Maps.java:95-100 | Once a path leads to a map, the rest of the path is resolved inside that map |
| `Maps.SegmentedGetMissing` | src/main/java/com/brambolt/util/Maps.java:93-100 | A segment missing from the map reached so far fails with not-found for that segment and that map, whatever follows |
| `Maps.SegmentedGetPastScalar` | src/main/java/com/brambolt/util/Maps.java:98-100 | Continuing past a string fails with the cast error for that string |
| `Maps.ConvertKey` | src/main/java/com/brambolt/util/Maps.java:111-113 | No segment holds a dot; a blank key gives the single empty segment; a trimmed key without dots is its own single segment |
| `Maps.ConvertKeyTrims` | src/main/java/com/brambolt/util/Maps.java:111-113 | A segmented key is trimmed before it is split, while a property name is not |
| `Maps.SegmentedGetByKey` | src/main/java/com/brambolt/util/Maps.java:80-82 | Fails only with the not-found or the cast error; a key without dots is looked up, trimmed, directly in the map, and not finding it is the not-found error for the trimmed key |
| `Maps.GetProperty` | src/main/java/com/brambolt/util/Maps.java:164 | A value is present exactly when the property has one, and it is the property's value |
| `Maps.InsertValue` | src/main/java/com/brambolt/util/Maps.java:198-209 | An absent value changes nothing; a value for a key already present is a second-value error naming the property, the existing value and the new one; otherwise the key is bound to the value |
| `Maps.Insert` | src/main/java/com/brambolt/util/Maps.java:155-168 | The empty-segments error comes exactly from an empty segment list; every other failure is a second-value or insertion error naming the property; on success the top-level keys only grow, by at most the first segment, and every other top-level entry is unchanged |
| `Maps.InsertTail` | src/main/java/com/brambolt/util/Maps.java:170-196 | On success the key holds a map and no other top-level entry changes; a failure below an existing key is always the insertion error with the property name and the key's old value; below a missing key the error is passed on unwrapped |
| `Maps.InsertName` | src/main/java/com/brambolt/util/Maps.java:131-133 | Fails with the empty-segments error exactly when the name splits into no segments; on success no key is lost; a name without dots is inserted as a top-level value |
| `Maps.InsertIntoEmpty` | src/main/java/com/brambolt/util/Maps.java:172-177 | Inserting into a new empty map never fails once there is a segment, so a missing key never makes insertion fail |
| `Maps.InsertSucceedsIff` | src/main/java/com/brambolt/util/Maps.java:155-209 | Insertion succeeds exactly when there is a segment, no proper prefix of the segments reaches a string, and, for a name with a value, nothing is found at the full segments |
| `Maps.InsertNewLeaf` | src/main/java/com/brambolt/util/Maps.java:155-209 | Any string found after an insertion was there before, or is the property's own value at exactly its segments |
| `Maps.InsertNewPath` | src/main/java/com/brambolt/util/Maps.java:155-196 | Any non-empty path that resolves after an insertion resolved before, or is a prefix of the inserted segments |
| `Maps.Build` | src/main/java/com/brambolt/util/Maps.java:124-129 | No keys give the empty map; a failure is only ever the empty-segments, second-value or insertion error |
| `Maps.Convert` | src/main/java/com/brambolt/util/Maps.java:124-129 | Inserting the names one after another gives the fold of insert over the keys, in their order |
| `Maps.BuildFailsAfterFailure` | src/main/java/com/brambolt/util/Maps.java:124-129 | Once a name fails to insert, the conversion fails with that error whatever names follow |
| `Maps.BuildErrorNamesKey` | src/main/java/com/brambolt/util/Maps.java:124-133 | A failure other than the empty-segments error names one of the keys |
| `Maps.BuildNeedsSegments` | src/main/java/com/brambolt/util/Maps.java:124-133 | When the conversion succeeds, every key split into at least one segment |
| `Maps.BuildLeafIsKeyValue` | src/main/java/com/brambolt/util/Maps.java:124-133 | Every string in the converted tree is the value of a key that has one, at exactly that key's segments |
| `Maps.BuildPathIsKeyPrefix` | src/main/java/com/brambolt/util/Maps.java:124-133 | Every non-empty path that resolves in the converted tree is a prefix of some key's segments |
| `Maps.BuildSucceeds` | src/main/java/com/brambolt/util/Maps.java:124-133 | The conversion succeeds, whatever the values, when every key has a segment and no key's segments are a prefix of, or equal to, another key's |
| `Maps.InsertExtends` | src/main/java/com/brambolt/util/Maps.java:155-196 | A successful insertion only adds: the new map contains the old one |
| `Maps.InsertPlacesValue` | src/main/java/com/brambolt/util/Maps.java:155-168 | After a successful insertion, the property's value is found at the end of its segments |
| `Maps.InsertCreatesPath` | src/main/java/com/brambolt/util/Maps.java:170-177 | After a successful insertion, every proper prefix of the segments leads to a map |
| `Maps.InsertAbsentAddsNoLeaf` | src/main/java/com/brambolt/util/Maps.java:198-200 | Inserting a name with no value adds no string leaf |
| `Maps.InsertRejectsOccupied` | src/main/java/com/brambolt/util/Maps.java:202-204 | Inserting a value where something already is fails, and the root cause is the second-value error with what was there |
| `Maps.InsertRejectsPastScalar` | src/main/java/com/brambolt/util/Maps.java:179-195 | Inserting below a string fails with the wrapping insertion error, caused by the cast error for that string |
| `Maps.InsertNameRejectsDots` | src/main/java/com/brambolt/util/Maps.java:131-133 | A name made only of dots has no segments and fails with the empty-segments error |
| `Maps.BuildPlacesValue` | src/main/java/com/brambolt/util/Maps.java:124-133 | After a successful conversion, each name with a value resolves along its dotted segments to that value; `BuildSucceeds` gives keys for which the conversion succeeds |
| `Maps.BuildCreatesPath` | src/main/java/com/brambolt/util/Maps.java:124-133 | After a successful conversion, every proper prefix of every name's segments leads to a map |
| `Maps.BuildResolvesByKey` | src/main/java/com/brambolt/util/Maps.java:80-82 | A converted name without surrounding blanks can be looked up by the name itself |
| `Maps.ContainsPreservesGet` | src/main/java/com/brambolt/util/Maps.java:85-103 | Whatever a contained map resolves a path to is contained in what the containing map resolves it to |
| `Maps.NodeContainsReflexive` | src/test/java/com/brambolt/util/MapsTest.java:43-53 | Every value contains itself |
| `Maps.ContainsReflexive` | src/test/java/com/brambolt/util/MapsTest.java:43-53 | Every map contains itself |
| `Maps.SplitExamples` | src/main/java/com/brambolt/util/Maps.java:132 | `a.b` and `a.b.c` split into their dot-separated segments |
| `Maps.BuildRejectsExtendingAString` | src/main/java/com/brambolt/util/Maps.java:186-194 | Converting `a.b=1` then `a.b.c=2` fails with the insertion error caused by the cast of `1` |
| `Maps.BuildRejectsDuplicateKey` | src/main/java/com/brambolt/util/Maps.java:202-204 | Converting the same name twice fails with the second-value error |
| `Maps.BuildAbsentValueLeavesEmptyMaps` | src/main/java/com/brambolt/util/Maps.java:144-147 | A name without a value leaves its intermediate maps, the last one empty, and looking the name up fails with not-found |
| `Maps.BuildKeepsSpacesResolveTrims` | src/main/java/com/brambolt/util/Maps.java:111-113 | A name with a leading blank is stored with the blank, and looking it up by the same text does not find it |
| `Contexts.Type.IsDirty` | src/main/java/com/brambolt/util/Context.java:9-29 | Dirty exactly for ERROR, FATAL and WARN |
| `Contexts.Type.IsClean` | src/main/java/com/brambolt/util/Context.java:31-33 | Clean exactly for DEBUG and INFO |
| `Contexts.CleanLogIff` | src/main/java/com/brambolt/util/Context.java:77-83 | A log is clean exactly when none of its entries has a dirty type |
| `Contexts.CleanLogAppend` | src/main/java/com/brambolt/util/Context.java:77-83 | Two logs one after the other are clean exactly when both are |
| `Contexts.DirtyEntryTaints` | src/main/java/com/brambolt/util/Context.java:77-83 | One dirty entry anywhere makes the log dirty |
| `Contexts.InfoOnlyIsClean` | src/main/java/com/brambolt/util/Context.java:17 | A log of info entries only is clean |
| `Contexts.DirtyStaysDirty` | src/main/java/com/brambolt/util/Context.java:77-83 | Appending never makes a dirty log clean again |
| `Contexts.Context.constructor` | src/main/java/com/brambolt/util/Context.java:61-75 | A new context has no entries and is clean |
| `Contexts.Context.GetEntries` | src/main/java/com/brambolt/util/Context.java:117-119 | The entries are returned in the order they were recorded |
| `Contexts.Context.IsClean` | src/main/java/com/brambolt/util/Context.java:77-83 | True exactly when no recorded entry is of type ERROR, FATAL or WARN |
| `Contexts.Context.Store` | src/main/java/com/brambolt/util/Context.java:113-115 | Appends exactly one entry built from the arguments; the log is then clean exactly when it was before and the type is clean |
| `Contexts.Context.ErrorWith` | src/main/java/com/brambolt/util/Context.java:93-95 | Appends an ERROR entry with the given throwable, message and parameters; the context is dirty afterwards |
| `Contexts.Context.Error` | src/main/java/com/brambolt/util/Context.java:85-87 | Appends an ERROR entry with no throwable; the context is dirty afterwards |
| `Contexts.Context.ErrorThrowable` | src/main/java/com/brambolt/util/Context.java:89-91 | Appends an ERROR entry with message `...`, the throwable as its only parameter and no throwable of its own |
| `Contexts.Context.FatalWith` | src/main/java/com/brambolt/util/Context.java:105-107 | Appends a FATAL entry with the given throwable, message and parameters; the context is dirty afterwards |
| `Contexts.Context.Fatal` | src/main/java/com/brambolt/util/Context.java:97-99 | Appends a FATAL entry with no throwable; the context is dirty afterwards |
| `Contexts.Context.FatalThrowable` | src/main/java/com/brambolt/util/Context.java:101-103 | Appends a FATAL entry holding the throwable, with message `...` and no parameters |
| `Contexts.Context.Info` | src/main/java/com/brambolt/util/Context.java:109-111 | Appends an INFO entry with no throwable; whether the context is clean does not change |
| `Templates.ErrorMessage` | src/main/java/com/brambolt/text/Templates.java:61-62 | The no-value message is the fixed text followed by the key |
| `Templates.Instantiation` | src/main/java/com/brambolt/text/Templates.java:51-67 | A null result exactly for a null template; null or empty bindings give the template; a failure needs a template and bindings, and names a key whose binding has no value |
| `Templates.BindAll` | src/main/java/com/brambolt/text/Templates.java:56-66 | No bindings leave the text as it is; a failure names a key whose binding has no value |
| `Templates.Bind` | src/main/java/com/brambolt/text/Templates.java:51-67 | A null template gives null; null or empty bindings give the template; otherwise every binding in turn replaces its delimited key by its value, and a binding without a value is an error |
| `Templates.BindDefault` | src/main/java/com/brambolt/text/Templates.java:26-28 | Binding with the default delimiter `@` |
| `Templates.FirstUnbound` | src/main/java/com/brambolt/text/Templates.java:57-62 | The position of the first binding without a value: every binding before it has one |
| `Templates.BindAllFailsOnFirstUnbound` | src/main/java/com/brambolt/text/Templates.java:57-62 | Binding fails exactly when some binding has no value, and the error names the first such key |
| `Templates.BindAllSequential` | src/main/java/com/brambolt/text/Templates.java:57-65 | Binding with two lists of bindings one after the other is binding with the first list, then binding its result with the second |
| `Templates.BindAllWithoutDelimiter` | src/main/java/com/brambolt/text/Templates.java:59-64 | Text without the delimiter character is returned unchanged when every binding has a value |
| `Templates.BindOneVariable` | src/main/java/com/brambolt/text/Templates.java:59-64 | A variable between delimiter-free text is replaced by its value, and the text around it is kept |
| `Templates.DocumentedExample` | src/main/java/com/brambolt/text/Templates.java:34-44 | `Some text with a @variable@.` bound with `variable` to `value` gives `Some text with a value.` |
| `Manifests.SplitLines` | src/main/java/com/brambolt/util/jar/Manifests.java:76-78 | No line holds a newline; trailing empty lines are dropped; empty content is a single empty line |
| `Manifests.Rejoin` | src/main/java/com/brambolt/util/jar/Manifests.java:80-82 | The joined text always ends in a newline; no lines give a lone newline |
| `Manifests.RejoinSplitRoundTrip` | src/main/java/com/brambolt/util/jar/Manifests.java:76-82 | Lines without newlines whose last line is not empty are recovered by splitting their rejoined text |
| `Manifests.DefaultLines` | src/main/java/com/brambolt/util/jar/Manifests.java:84-86 | The default transformation hands back the same lines |
| `Manifests.ApplyContent` | src/main/java/com/brambolt/util/jar/Manifests.java:72-74 | Whatever the transformation, the result ends in a newline; a transformation giving no lines gives a lone newline |
| `Manifests.RejoinEndsInOneNewline` | src/main/java/com/brambolt/util/jar/Manifests.java:76-82 | Lines as split gives them rejoin into text that ends in exactly one newline |
| `Manifests.Apply` | src/main/java/com/brambolt/util/jar/Manifests.java:72-86 | Applying the manifest gives text that ends in exactly one newline |
| `Manifests.ApplyKeepsNormalContent` | src/main/java/com/brambolt/util/jar/Manifests.java:72-86 | Content that already ends in exactly one newline comes back unchanged |
| `Manifests.ApplyFixedPointIff` | src/main/java/com/brambolt/util/jar/Manifests.java:72-86 | Applying leaves content unchanged if and only if it ends in exactly one newline |
| `Manifests.ApplyIdempotent` | src/main/java/com/brambolt/util/jar/Manifests.java:72-86 | Applying twice is applying once |
| `Manifests.IsLineAttribute` | src/main/java/com/brambolt/util/jar/Manifests.java:88-90 | A line can only name an attribute when its trimmed text is at least as long as the name; every line names the empty attribute |
| `Manifests.LineAttributeByCharacters` | src/main/java/com/brambolt/util/jar/Manifests.java:88-90 | A line names an attribute exactly when its trimmed text is at least as long as the name and agrees with it letter by letter, ignoring ASCII case |
| `Manifests.LineAttributeIgnoresIndent` | src/main/java/com/brambolt/util/jar/Manifests.java:88-90 | Leading blanks do not change which attribute a line names |
| `Manifests.LineAttributeOfName` | src/main/java/com/brambolt/util/jar/Manifests.java:88-90 | A line starting with the attribute name, as written or in lower case, names that attribute |
| `Manifests.IsManifestVersion` | src/main/java/com/brambolt/util/jar/Manifests.java:100-102 | A manifest-version line trims to at least 16 characters and starts with `M` or `m` |
| `Manifests.IsSignatureVersion` | src/main/java/com/brambolt/util/jar/Manifests.java:104-106 | A signature-version line trims to at least 17 characters and starts with `S` or `s` |
| `Manifests.NotBothVersions` | src/main/java/com/brambolt/util/jar/Manifests.java:100-106 | No line is both a manifest-version line and a signature-version line |
| `Manifests.ManifestVersionLowerCase` | src/main/java/com/brambolt/util/jar/Manifests.java:35 | The manifest-version attribute name in lower case |
| `Manifests.ManifestVersionLine` | src/main/java/com/brambolt/util/jar/Manifests.java:100-102 | `Manifest-Version: 1.0` is a manifest-version line |
| `Manifests.IndentedLowerCaseVersionLine` | src/main/java/com/brambolt/util/jar/Manifests.java:100-102 | `manifest-version: 1.0`, indented by any blanks, is a manifest-version line |
| `Manifests.HasAttribute` | src/main/java/com/brambolt/util/jar/Manifests.java:92-94 | True exactly when some line names the attribute |
| `FileNames.Split.Apply` | src/main/java/com/brambolt/nio/file/FileNames.java:29-34 | Prefix and suffix put together give the name; a name without a dot is all prefix; otherwise the suffix starts with a dot and holds no other dot |
| `FileNames.SuffixIsLastDotOnward` | src/main/java/com/brambolt/nio/file/FileNames.java:30-32 | The name is cut exactly at its last dot |
| `FileNames.HiddenFileName` | src/main/java/com/brambolt/nio/file/FileNames.java:30-32 | A name whose only dot is its first character has an empty prefix and is all suffix |
| `FileNames.PrefixKeepsEarlierDots` | src/main/java/com/brambolt/nio/file/FileNames.java:29-34 | The prefix is the start of the name, and the suffix is empty exactly when the name has no dot |
| `FileNames.DoubleExtension` | src/main/java/com/brambolt/nio/file/FileNames.java:29-34 | `archive.tar.gz` splits into `archive.tar` and `.gz` |
| `Strings.AsListDelimited` | src/main/java/com/brambolt/util/Strings.java:13-17 | Null or blank text is the empty list; other text is split on the delimiter |
| `Strings.AsList` | src/main/java/com/brambolt/util/Strings.java:9-11 | The list delimited by commas |
| `Strings.AsListRejoins` | src/main/java/com/brambolt/util/Strings.java:15 | For text that is not blank, the list ends in a non-empty item, and joining it back, after the empty items it dropped, gives the text |
| `Strings.AsListOfJoined` | src/main/java/com/brambolt/util/Strings.java:13-17 | Items joined with a one-character delimiter that none of them holds come back as the same list, provided the last item is not empty |
| `Strings.AsListItemsHoldNoComma` | src/main/java/com/brambolt/util/Strings.java:9-17 | No item of a comma-separated list holds a comma |
| `Strings.MaxLength` | src/main/java/com/brambolt/util/Strings.java:19-27 | Never negative, 0 for an empty array, at least every element's length, and for a non-empty array the length of some element |
| `Resources.GetResourcePathForPackage` | src/main/java/com/brambolt/util/Resources.java:41-44 | Same length; each dot becomes a slash and every other character is kept; no dot is left |
| `Resources.GetPackagePath` | src/main/java/com/brambolt/util/Resources.java:37-39 | The package path is the resource path for the package |
| `Resources.ResourcePathIdempotent` | src/main/java/com/brambolt/util/Resources.java:43 | Converting twice is converting once |
| `Resources.ResourcePathJoinsNames` | src/main/java/com/brambolt/util/Resources.java:43 | The path is the dot-separated names joined with slashes |
| `Resources.ResourcePathInjective` | src/main/java/com/brambolt/util/Resources.java:43 | Package names without slashes have different resource paths |
| `Resources.LibraryPackagePath` | src/main/java/com/brambolt/util/Resources.java:41-44 | `com.brambolt.util` gives `com/brambolt/util`, with no leading slash |

## Left out

- Nulls: a null map, element, key or value is not modelled. The exceptions are the null template and null bindings of `Templates.bind`, the null value of `Strings.asList`, the null segment list of `segmentedGet`, and absent property values.
- Leaf values: values in nested maps other than strings are modelled by their text, and there is no `ClassCastException` for keys or values of the wrong type in `asMap`.
- Iteration order:
  - The iteration order of a `HashMap` or of `Properties` is taken as input. Examples are the key list given to `convert` and the binding list given to `bind`.
  - `Merge` visits the overlay keys in an arbitrary order. When several keys conflict, its contract says only that the reported error is a map/non-map conflict, not which pair is reported.
  - Map rendering sorts the keys of nested maps too, where Java's `HashMap.toString` uses hash order.
  - That `convert` gives the same tree for every order of the keys is not proved.
- Java text: exception messages other than the ones listed in `Maps.Message` and `Templates.ErrorMessage` are not modelled. This includes the `ClassCastException` text and the message of a `RuntimeException`'s cause.
- In-place updates: `insert`, `insertTail` and `insertValue` update nested `HashMap`s in place. The model extends values instead, because every nested map is created and owned by the conversion, so no aliasing can be observed.
- `Context.getEntries` returns the live `Vector`. The model returns the sequence, and updates made through that reference are not modelled.
- The `Logger` is not modelled. `getLogger`, the logger passed to `create`, and the unused class argument of `create` are left out.
- Regular expressions:
  - `Templates.bind` and `Maps.convert` go through `replaceAll` and `split` with a regular expression. The model treats the delimiter and the keys as literal text, as they are when they hold no regular-expression metacharacter.
  - `Strings.asList` splits on a regular expression. It is modelled for a literal delimiter.
- `Strings.MaxLength`: lengths are counted in Unicode code points, not in the UTF-16 units of Java's `String.length()`, so a string with characters outside the Basic Multilingual Plane counts shorter than Java reports.
- `StringOps.ToLower` maps ASCII only, and `compareTo` order is by Unicode code point rather than UTF-16 unit.
- `Properties` defaults are not modelled: a property is a `map<string, string>`.
- I/O is not modelled: reading and writing manifest files, `FileSystem` and `Path` overloads, class-loader streams, `Files` and `Streams`.
- `FileNames.Split.apply(Path)` is not modelled; only the `String` overload is. The `Split` constructor is the datatype constructor, which stores both fields unchanged.
- `Manifests.apply(List)` is the identity function `DefaultLines`. An implementation that overrides it is modelled by passing another transformation to `ApplyContent`.
