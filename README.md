# JFR event factory of the BTrace runtime

BTrace scripts may declare their own Java Flight Recorder event types. The
runtime receives each declaration as a template: a name, optional label,
description, category and period, a stack-trace flag, a textual field list
such as `"int a, String b"`, and optionally the owner class and method name
of a periodic handler. `JfrEventFactoryImpl` turns a template into a
registered JFR event type and hands out events of that type. It builds:

- the annotation list of the event type;
- one value descriptor per comma-separated field entry;
- an index from field name to position.

It then creates and registers the event type. When the template has both a
period and a periodic handler, it attaches a periodic hook that the
recorder's scheduler calls. `unregister()` removes the hook, if there is one,
and unregisters the event type.

The model has five modules:

- `Wrappers`: `Option` and `Result`.
- `JavaText`: the Java library behaviour the parser relies on.
  - `String.trim` strips every char up to `' '`.
  - `String.toLowerCase` is modelled for ASCII letters.
  - `Pattern.compile("\\s+").split` splits on runs of the six regex whitespace characters and drops trailing empty strings.
  - `java.util.StringTokenizer` is a class with a cursor over the string.
- `Catalog`: the nine-entry `VALUE_TYPES` map and the case-insensitive lookup into it.
- `Schema`: the template, the annotation list, and the field-list parser. The parser comes twice:
  - `ParseFields` is the tokenizer loop as the constructor runs it;
  - `ParseSpec` is its functional specification.
  It also holds a rendering of declarations back to text, used for the round-trip property.
- `Registration`: the factory's life cycle.
  - `FlightRecorder` reduces `EventFactory` and `FlightRecorder` to two pieces of state: the set of registered event types and the map from periodic hooks to their event types.
  - Reflection (`Class.forName`, `getMethod`) becomes a `Classpath` value.
  - The Java constructor can throw in its field loop, so it is the static method `Create`, which returns a `Result`. A Dafny constructor cannot fail.

What the field loop and the periodic hook do on unusual input:

- The catalog lookup of an unknown type name yields `null`, here `None`. The lookup itself raises nothing. `ValueDescriptor` rejects the null type, so the Java constructor throws there. `ValueDescriptor` is not part of this model.
- A duplicate field name passes the loop. The later position overwrites the earlier one in the index, and both descriptors stay in the list. `EventFactory.create` (line 76) then rejects the duplicate names with `IllegalArgumentException`, so nothing is registered. `EventFactory.create` is not part of this model.
- So the success case of `Create` includes inputs on which the Java constructor throws: an unknown type name or a name that is not a Java identifier (in `ValueDescriptor`, line 73), or a duplicate field name (in `EventFactory.create`, line 76).
- The only exception the split raises is `ArrayIndexOutOfBoundsException` (index 1, length 1). It happens when a trimmed entry has no whitespace inside it. The model's only failure is this one. It is reported for the first malformed entry even when an earlier entry has an unknown type, where the Java constructor has already thrown `NullPointerException` in `ValueDescriptor`.
- A periodic hook whose owner class is missing is not an error. The code logs an informational line and carries on.

## Model

| member | source | states |
|---|---|---|
| JavaText.Tokens | btrace-runtime/src/main/java11/org/openjdk/btrace/runtime/JfrEventFactoryImpl.java:69 | every token is non-empty and contains no delimiter |
| JavaText.TokensAreNonEmptyPieces | btrace-runtime/src/main/java11/org/openjdk/btrace/runtime/JfrEventFactoryImpl.java:69 | the tokens are exactly the non-empty pieces between delimiters, in order, so consecutive commas yield no empty token |
| JavaText.TokensOfJoin | btrace-runtime/src/main/java11/org/openjdk/btrace/runtime/JfrEventFactoryImpl.java:69 | tokenizing `a + d + b` for a delimiter `d` gives the tokens of `a` followed by the tokens of `b` |
| JavaText.StringTokenizer.constructor | btrace-runtime/src/main/java11/org/openjdk/btrace/runtime/JfrEventFactoryImpl.java:69 | a new tokenizer has all tokens of the string still to hand out |
| JavaText.StringTokenizer.SkipDelimiters | btrace-runtime/src/main/java11/org/openjdk/btrace/runtime/JfrEventFactoryImpl.java:70-71 | returns the first position at or after the start that holds no delimiter, and the tokens from there are the tokens from the start |
| JavaText.StringTokenizer.HasMoreTokens | btrace-runtime/src/main/java11/org/openjdk/btrace/runtime/JfrEventFactoryImpl.java:70 | true exactly when tokens remain |
| JavaText.StringTokenizer.NextToken | btrace-runtime/src/main/java11/org/openjdk/btrace/runtime/JfrEventFactoryImpl.java:71 | returns the first remaining token and removes exactly that one |
| JavaText.Trim | btrace-runtime/src/main/java11/org/openjdk/btrace/runtime/JfrEventFactoryImpl.java:71 | the result is the part of the string left once its leading and trailing chars up to `' '` are removed: an infix with only such chars before and after it; neither of its ends is such a char, and a string already in that form is returned unchanged |
| JavaText.SplitTrimmed | btrace-runtime/src/main/java11/org/openjdk/btrace/runtime/JfrEventFactoryImpl.java:72 | on a trimmed string the whitespace split has at least one part; it has two or more exactly when the string contains whitespace, then the first two parts are non-empty; no part contains whitespace |
| JavaText.SplitWhitespace | btrace-runtime/src/main/java11/org/openjdk/btrace/runtime/JfrEventFactoryImpl.java:72 | no part of the split contains whitespace |
| JavaText.SplitIsWords | btrace-runtime/src/main/java11/org/openjdk/btrace/runtime/JfrEventFactoryImpl.java:72 | on a trimmed non-empty string the split is exactly the maximal runs of non-whitespace chars, in order, whatever whitespace separates them |
| JavaText.SplitPair | btrace-runtime/src/main/java11/org/openjdk/btrace/runtime/JfrEventFactoryImpl.java:72 | splitting `t + " " + n` for whitespace-free non-empty `t`, `n` gives exactly `[t, n]` |
| JavaText.Replace | btrace-runtime/src/main/java11/org/openjdk/btrace/runtime/JfrEventFactoryImpl.java:115 | same length, and each char equal to `from` becomes `to` while every other char is kept |
| JavaText.ReplaceRemoves | btrace-runtime/src/main/java11/org/openjdk/btrace/runtime/JfrEventFactoryImpl.java:115 | after replacing `/` by `.` no `/` remains, and a name without `/` is unchanged |
| JavaText.ToLowerCase | btrace-runtime/src/main/java11/org/openjdk/btrace/runtime/JfrEventFactoryImpl.java:73 | same length; no ASCII upper-case letter is left; each char is kept or is an upper-case letter turned into its lower-case partner |
| Catalog.CatalogIsExactlyTheNineKinds | btrace-runtime/src/main/java11/org/openjdk/btrace/runtime/JfrEventFactoryImpl.java:33-42 | the catalog maps each of the nine lower-case names to its kind and holds no other key |
| Catalog.TypeOf | btrace-runtime/src/main/java11/org/openjdk/btrace/runtime/JfrEventFactoryImpl.java:73 | a kind is found exactly when the lower-cased name is one of the catalog's keys |
| Catalog.TypeOfIgnoresCase | btrace-runtime/src/main/java11/org/openjdk/btrace/runtime/JfrEventFactoryImpl.java:73 | a type name denotes kind `k` if and only if its lower-case form is `k`'s catalog name, and it denotes some kind if and only if that form is one of the nine names |
| Catalog.TypeOfAnyCase | btrace-runtime/src/main/java11/org/openjdk/btrace/runtime/JfrEventFactoryImpl.java:73 | any spelling of a catalog name in any mix of letter cases finds that kind |
| Catalog.LookupExamples | btrace-runtime/src/main/java11/org/openjdk/btrace/runtime/JfrEventFactoryImpl.java:73 | `INT` and `int` find Int, `String` finds String, `wibble` and `integer` find nothing |
| Schema.Optional | btrace-runtime/src/main/java11/org/openjdk/btrace/runtime/JfrEventFactoryImpl.java:56-67 | an optional template value contributes one annotation when present and none when null |
| Schema.Annotations | btrace-runtime/src/main/java11/org/openjdk/btrace/runtime/JfrEventFactoryImpl.java:51-67 | the list has between three and seven entries and starts with Name(name), Registered(true), StackTrace(flag) |
| Schema.AnnotationsShape | btrace-runtime/src/main/java11/org/openjdk/btrace/runtime/JfrEventFactoryImpl.java:53-67 | the list has 3 plus the number of non-null optionals entries and starts with Name(name), Registered(true), StackTrace(flag) |
| Schema.AnnotationsOrder | btrace-runtime/src/main/java11/org/openjdk/btrace/runtime/JfrEventFactoryImpl.java:51-67 | the annotations appear in the fixed order Name, Registered, StackTrace, Label, Description, Category, Period |
| Schema.AnnotationsPresence | btrace-runtime/src/main/java11/org/openjdk/btrace/runtime/JfrEventFactoryImpl.java:56-67 | Label(v), Description(v), Category(v) and Period(v) are in the list if and only if the template's value is `v`, so an absent value leaves no entry |
| Schema.BuildAnnotations | btrace-runtime/src/main/java11/org/openjdk/btrace/runtime/JfrEventFactoryImpl.java:51-67 | the appends of the constructor build exactly the specified annotation list |
| Schema.ParseToken | btrace-runtime/src/main/java11/org/openjdk/btrace/runtime/JfrEventFactoryImpl.java:71-74 | a failure is an index at or past the length of the split; a parsed field name is non-empty and free of whitespace |
| Schema.ParseTokenCases | btrace-runtime/src/main/java11/org/openjdk/btrace/runtime/JfrEventFactoryImpl.java:71-73 | an entry fails exactly when its trimmed form has no whitespace, always with index 1 of length 1; otherwise it gives the looked-up kind of the first part and the second part as name, ignoring any further parts |
| Schema.ParseTokenWords | btrace-runtime/src/main/java11/org/openjdk/btrace/runtime/JfrEventFactoryImpl.java:71-73 | a parsed entry declares the first word of its trimmed form as type and the second word as name, whatever whitespace separates them |
| Schema.ParseTokensCases | btrace-runtime/src/main/java11/org/openjdk/btrace/runtime/JfrEventFactoryImpl.java:70-73 | a token list parses exactly when every token does, then into one descriptor per token in order; a failure is index 1 of length 1 |
| Schema.IndexMap | btrace-runtime/src/main/java11/org/openjdk/btrace/runtime/JfrEventFactoryImpl.java:74 | the keys are exactly the declared names, each mapped to a position holding it, and no later position holds the same name |
| Schema.IndexOfDistinct | btrace-runtime/src/main/java11/org/openjdk/btrace/runtime/JfrEventFactoryImpl.java:68-74 | for distinct names the i-th name maps to i and the values are exactly 0..n-1 |
| Schema.DuplicateLastWins | btrace-runtime/src/main/java11/org/openjdk/btrace/runtime/JfrEventFactoryImpl.java:74 | a name declared at positions i < j maps to a position at least j, never i |
| Schema.ParseSpec | btrace-runtime/src/main/java11/org/openjdk/btrace/runtime/JfrEventFactoryImpl.java:68-75 | a success has one descriptor per comma token; a failure is an index at or past the split's length |
| Schema.ParseSpecFields | btrace-runtime/src/main/java11/org/openjdk/btrace/runtime/JfrEventFactoryImpl.java:68-75 | parsing succeeds exactly when every comma token parses; then the descriptors are the tokens' descriptors in order and the index covers exactly their names at matching positions; a failure is index 1 of length 1 |
| Schema.ParseFields | btrace-runtime/src/main/java11/org/openjdk/btrace/runtime/JfrEventFactoryImpl.java:68-75 | the tokenizer loop with its counter and in-place index updates computes exactly the specified parse result, failure included |
| Schema.ParseRendered | btrace-runtime/src/main/java11/org/openjdk/btrace/runtime/JfrEventFactoryImpl.java:68-75 | a list of `type name` declarations rendered with `", "` parses back to one descriptor per declaration with the looked-up kind and name, and the index of those names |
| Schema.DuplicateNameKeepsBoth | btrace-runtime/src/main/java11/org/openjdk/btrace/runtime/JfrEventFactoryImpl.java:73-74 | declaring one name twice keeps both descriptors and indexes the name at position 1 |
| Schema.BlankEntryFails | btrace-runtime/src/main/java11/org/openjdk/btrace/runtime/JfrEventFactoryImpl.java:69-72 | a field list containing `", ,"` fails with index 1 of length 1 whatever surrounds it |
| Schema.LoneWordFails | btrace-runtime/src/main/java11/org/openjdk/btrace/runtime/JfrEventFactoryImpl.java:72-73 | a field list made of one word without a name fails with index 1 of length 1 |
| Registration.FlightRecorder.Register | btrace-runtime/src/main/java11/org/openjdk/btrace/runtime/JfrEventFactoryImpl.java:77 | adds the event type to the registered set and leaves the hooks alone |
| Registration.FlightRecorder.Unregister | btrace-runtime/src/main/java11/org/openjdk/btrace/runtime/JfrEventFactoryImpl.java:126 | removes the event type from the registered set and leaves the hooks alone |
| Registration.FlightRecorder.AddPeriodicEvent | btrace-runtime/src/main/java11/org/openjdk/btrace/runtime/JfrEventFactoryImpl.java:109 | records a new hook for the event type and changes nothing else |
| Registration.FlightRecorder.RemovePeriodicEvent | btrace-runtime/src/main/java11/org/openjdk/btrace/runtime/JfrEventFactoryImpl.java:124 | removes the hook, reports whether it was there, and changes nothing else |
| Registration.Resolve | btrace-runtime/src/main/java11/org/openjdk/btrace/runtime/JfrEventFactoryImpl.java:90-91 | the handler resolves exactly when owner and handler are non-null, the class loads and has the method; the class is not found exactly when a non-null owner is missing from the class path |
| Registration.NotFoundMessage | btrace-runtime/src/main/java11/org/openjdk/btrace/runtime/JfrEventFactoryImpl.java:111-117 | the logged line is the fixed prefix, then `Replace(className, '/', '.')` (the class name with every `/` turned into `.`, so no `/` remains), then a closing quote |
| Registration.ParsedIndexValid | btrace-runtime/src/main/java11/org/openjdk/btrace/runtime/JfrEventFactoryImpl.java:68-75 | after a successful parse every indexed name sits at a position holding it and every declared name is indexed |
| Registration.JfrEventFactoryImpl.constructor | btrace-runtime/src/main/java11/org/openjdk/btrace/runtime/JfrEventFactoryImpl.java:76-77 | given a valid field index, creates a fresh event type with the given annotations and descriptors, registers it with no hook, and leaves the factory valid |
| Registration.JfrEventFactoryImpl.Create | btrace-runtime/src/main/java11/org/openjdk/btrace/runtime/JfrEventFactoryImpl.java:50-80 | fails exactly when the field list fails to parse, and then leaves the recorder untouched; otherwise registers a fresh event type with the specified annotations, descriptors and index; a hook is attached exactly when period and handler are non-null and the handler resolves; the not-found line is returned exactly when period and handler are set and the owner class is missing |
| Registration.JfrEventFactoryImpl.NewEvent | btrace-runtime/src/main/java11/org/openjdk/btrace/runtime/JfrEventFactoryImpl.java:84-86 | an event of the factory's type sharing its valid field index; nothing is modified |
| Registration.JfrEventFactoryImpl.AddJfrPeriodicEvent | btrace-runtime/src/main/java11/org/openjdk/btrace/runtime/JfrEventFactoryImpl.java:88-120 | on resolution a fresh hook for this event type is added and kept; otherwise hook and recorder are unchanged; the not-found line is returned exactly for a missing class; the registered set never changes |
| Registration.JfrEventFactoryImpl.Unregister | btrace-runtime/src/main/java11/org/openjdk/btrace/runtime/JfrEventFactoryImpl.java:122-127 | removes the hook only if one was recorded and always unregisters the event type |
| Registration.CreateThenUnregister | btrace-runtime/src/main/java11/org/openjdk/btrace/runtime/JfrEventFactoryImpl.java:122-127 | creating a factory and unregistering it leaves the recorder's registered set and hooks as they were |

## Left out

- The periodic hook's callback is not modelled (lines 92-107). This is the dynamic proxy whose `run` creates an event, invokes the handler, prints any throwable and rethrows it. It runs on the recorder's scheduler thread. A hook is modelled only by its owner, handler and event type.
- `JfrEventImpl` is not part of this model. Neither are its field setters and commit. `NewEvent` returns the event type and the shared field index that `JfrEventImpl` receives.
- `jdk.jfr.ValueDescriptor` and `EventFactory.create` are not modelled. They validate the descriptors: they reject a null type (an unknown type name), names that are not Java identifiers, and duplicate field names. The model records the lookup result as an `Option` and carries the name as given.
- Registration.JfrEventFactoryImpl.Create: its success case covers field lists that the Java constructor rejects after parsing them, because the descriptor and event-type validation is not modelled. These are an unknown type name, a field name that is not a Java identifier, and a duplicate field name. Its failure is always the index exception (index 1, length 1) of the first malformed entry. When an earlier entry has an unknown type name, as in `wibble x,int`, Java throws `NullPointerException` in `ValueDescriptor` at that earlier entry instead.
- Registration.Resolve stands for `Class.forName` and `getMethod`. The Java code swallows every other throwable (a linkage error, a missing method, a null owner or handler, a security exception), and the model folds all of them into the single outcome `Ignored`.
- Registration.NotFoundMessage takes `ClassNotFoundException.getMessage()` to be the requested class name. A null message would throw in the Java code, and that case is not modelled.
- Logging is not modelled: `printStackTrace` and `DebugSupport.info` (lines 100, 112, 117). The informational line is returned as `info` instead of being written out.
- A null template name or null field list is not modelled. The Java code would throw `NullPointerException`.
- JavaText.ToLowerCase maps only the ASCII letters A-Z, as `toLowerCase()` does under a locale such as English. Java's locale-dependent Unicode case mapping is not modelled. Under a Turkish or Azerbaijani default locale, `I` lowers to a dotless `ı`, so `INT`, `STRING` and any spelling of `int` or `string` with a capital `I` find nothing in the Java code. `TypeOfAnyCase` and `LookupExamples` (`TypeOf("INT") == Some(Int)`) hold only without that rule.
- `float` and `double` are value-kind tags only. No floating-point arithmetic is involved.
- Registration.FlightRecorder.AddPeriodicEvent requires a hook not added before. The JDK call throws for a hook that is already registered, but every hook here is a fresh object, so that case cannot arise.
- Concurrency is not modelled. This covers `newEvent()` on several threads and the scheduler calling a hook while `unregister()` runs.
