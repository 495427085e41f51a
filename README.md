# Observable models for Unity, in Dafny

This project models the core of *unity-observable-models*, a C# library of
ScriptableObject "observable models": a model holds a value and raises its
`OnValueChanged` event on every assignment.

- **Value models.** `ObservableModel<T>` stores a current value and an initial
  value. It can reset to the initial value and has an `ObjectValue` bridge.
  It compares by value through its `Equals` overloads and operators.
- **Float and vector models.** These add a `StringValue` setter that parses
  text.
- **List models.** `ObservableListModel<T>` wraps the `List<T>` it is given
  in a proxy. The proxy announces every change made through it, whether the
  change comes from the model or from its `Value`. The typed list models
  add reductions: truth-table queries over booleans, and Sum, Min, Max and
  Average over integers.
- **Catalogs.** Catalogs of Vector2 and Vector3 models are dictionaries
  from names to freshly created models.

How the model represents the source:

- **The event.** Each model carries a ghost log of notifications. Each entry
  (`Notice`) records what the handlers receive and the subscribers attached
  at that moment, in subscription order. For value models that is the value
  passed to the event. For list models the event passes the model's
  current `Value`, a live proxy object, and the entry records a snapshot
  of that proxy's contents at the moment the event is raised. A change made
  through a proxy that a later assignment has replaced still raises the
  owner's event, which then passes the owner's current proxy. An empty
  receiver list
  is an invocation that `?.` skipped because nobody was subscribed.
- **Value models.** A value model is the class `Observable.ValueModel`.
- **List models.** A list model is the class `ObservableLists.ListModel`. It
  holds a proxy (`ObservableLists.ObservableList`), and the proxy holds a
  list object (`ObservableLists.ListObj`, standing for `List<T>`). Lists
  are heap objects, so the model keeps the aliasing the source has. After a
  reset, the proxy wraps the very `_initialValue` list. Later edits through
  the model therefore change `_initialValue` too, and a second reset is
  ignored by the setter's guard (`IntListModels.ResetAliasesInitialList`).
- **Exceptions.** An exception is an `Err` or `Failed` value naming it; the
  state is left as the exception leaves it.
- **Library calls.** `float.Parse` is a parameter of the string setters,
  because the model does not describe its grammar.
- **Engine lifecycle.** `CreateInstance` is modelled as the constructor
  followed by the engine callbacks the type defines: `OnEnable` for value
  models, and `Awake` then `OnEnable` for list models.

Modules:

- `Wrappers`: errors, `Option`, `Result` and `Outcome`.
- `Sequences`: `List<T>` operations on sequences.
- `Text`: `string.Replace`, `Split` and `Join`, and the vector tokenizer.
- `Numerics`: floats as IEEE 754 bit patterns, `Vector2` and `Vector3`.
- `Observable`: `ObservableModel<T>`.
- `ObservableLists`: `ObservableListModel<T>`.
- `Catalogs`: the read side of `ObservableModelsCatalog`.
- One module per typed model, list model and catalog.

## Model

| member | source | states |
|---|---|---|
| Sequences.FirstIndex | Runtime/Collections/List/ObservableListModel.cs:74-77 | IndexOf: -1 exactly when the item is absent; otherwise the position of the item, with no earlier occurrence |
| Sequences.InsertAt | Runtime/Collections/List/ObservableListModel.cs:79-83 | List.Insert: one longer; elements before the index stay in place, the item sits at the index, and later elements move up by one |
| Sequences.DeleteAt | Runtime/Collections/List/ObservableListModel.cs:95-99 | List.RemoveAt: one shorter; the element at the index is gone and later elements move down by one; the multiset loses exactly that element |
| Sequences.RemoveFirst | Runtime/Collections/List/ObservableListModel.cs:85-93 | List.Remove: unchanged when the item is absent; otherwise exactly the first occurrence is dropped (length and multiset drop by one, prefix and suffix around it kept) |
| Sequences.DeleteInsert | Runtime/Collections/List/ObservableListModel.cs:79-99 | RemoveAt(i) undoes Insert(i, x) |
| Sequences.InsertDelete | Runtime/Collections/List/ObservableListModel.cs:79-99 | Insert(i, s[i]) undoes RemoveAt(i) |
| Sequences.RemoveFirstRestorable | Runtime/Collections/List/ObservableListModel.cs:74-93 | Inserting the item back at its former IndexOf undoes Remove |
| Text.ReplaceChar | Runtime/FloatObservableModel.cs:24 | string.Replace of one character: same length, each occurrence replaced, every other character kept |
| Text.ReplaceCharRemovesAll | Runtime/FloatObservableModel.cs:24 | After replacing a character by a different one, it no longer occurs |
| Text.RemoveChar | Runtime/Vector2ObservableModel.cs:24 | Replace(c, ""): c no longer occurs and no new character appears |
| Text.RemoveCharCounts | Runtime/Vector2ObservableModel.cs:24 | Removing c shortens the text by its number of c's and keeps the count of every other character |
| Text.RemoveCharAppend | Runtime/Vector2ObservableModel.cs:24 | Removal distributes over concatenation |
| Text.RemoveCharAbsent | Runtime/Vector2ObservableModel.cs:24 | Removal leaves text without c unchanged |
| Text.StripParentheses | Runtime/Vector2ObservableModel.cs:24 | The vector setters' first step leaves no '(' or ')' |
| Text.StripParenthesesIdempotent | Runtime/Vector2ObservableModel.cs:24 | Stripping twice is stripping once |
| Text.Split | Runtime/Vector2ObservableModel.cs:26-34 | string.Split on one character: never an empty result |
| Text.SplitWhole | Runtime/Vector2ObservableModel.cs:26-34 | Text without the separator is one piece, the text itself |
| Text.SplitPieceAvoids | Runtime/Vector2ObservableModel.cs:26-34 | No piece holds the separator |
| Text.SplitPieceWithin | Runtime/Vector2ObservableModel.cs:26-34 | Every piece is made of characters of the text, none more often than in the text |
| Text.JoinSplit | Runtime/Vector2ObservableModel.cs:26-34 | Joining the pieces with the separator gives the text back |
| Text.SplitJoin | Runtime/Vector2ObservableModel.cs:26-34 | Splitting a join of separator-free pieces gives the pieces back |
| Text.SplitCount | Runtime/Vector2ObservableModel.cs:26-34 | There is one more piece than there are separators |
| Text.VectorTokens | Runtime/Vector2ObservableModel.cs:24-34 | The tokens the vector setters read: at least one, none holding a parenthesis |
| Text.SplitTokens | Runtime/Vector2ObservableModel.cs:26-34 | Splits on ',' if there is one and on ' ' otherwise; at least one piece, each made of characters of the text |
| Text.StripParenthesesAround | Runtime/Vector2ObservableModel.cs:24 | Surrounding parentheses are stripped like any others |
| Text.ParenthesesIgnored | Runtime/Vector3ObservableModel.cs:25-35 | "(s)" and "s" give the same tokens |
| Text.TokensOfPlainCommaText | Runtime/Vector3ObservableModel.cs:25-35 | Text with a ',' and no parentheses is split on ',' |
| Text.CommaJoinTokens | Runtime/Vector3ObservableModel.cs:25-35 | Two or more clean pieces joined by ',', with or without parentheses, are tokenized back into those pieces |
| Text.VectorTokensCount | Runtime/Vector3ObservableModel.cs:25-35 | Number of tokens = 1 + number of the chosen separator left after stripping |
| Observable.RemoveLast | Runtime/ObservableModel.cs:44 | Event `-=`: nothing changes when the handler is absent; otherwise the list gets one shorter |
| Observable.RemoveLastDropsLastOccurrence | Runtime/ObservableModel.cs:44 | Event `-=` on a subscribed handler removes its last occurrence: the result is the list with that one position cut out, so every other handler keeps its place in the order |
| Observable.RemoveLastMultiset | Runtime/ObservableModel.cs:44 | Event `-=` takes exactly one copy of the handler away and keeps the count of every other handler |
| Observable.UnsubscribedOnceIsGone | Runtime/ObservableModel.cs:44 | A handler subscribed once is no longer a receiver after `-=` |
| Observable.SubscribeUnsubscribe | Runtime/ObservableModel.cs:44 | `+=` then `-=` of the same handler restores the subscriber list |
| Observable.ValueModel.constructor | Runtime/ObservableModel.cs:34-45 | A new model holds default(T) as value and initial value, has no subscribers and has raised nothing |
| Observable.ValueModel.CreateInstance | Runtime/ObservableModel.cs:47-54 | CreateInstance followed by OnEnable on a default model: nothing is raised |
| Observable.ValueModel.Subscribe | Runtime/ObservableModel.cs:44 | `+=` appends the handler |
| Observable.ValueModel.Unsubscribe | Runtime/ObservableModel.cs:44 | `-=` removes the last occurrence of the handler |
| Observable.ValueModel.SetValue | Runtime/ObservableModel.cs:122-129 | Value setter: stores the value and raises the event once with it, to the current subscribers, even when the value is unchanged |
| Observable.ValueModel.ResetValue | Runtime/ObservableModel.cs:114-117 | The value becomes the initial value, announced once |
| Observable.ValueModel.OnEnable | Runtime/ObservableModel.cs:47-54 | Resets exactly when the initial value is not default(T) and the value is; otherwise nothing changes |
| Observable.ValueModel.SetObjectValue | Runtime/ObservableModel.cs:131-135 | Unboxing assignment: a T is stored (and read back by the getter); another type fails with InvalidCast and null with NullReference, both leaving value and log unchanged |
| Observable.ValueModel.ObjectValue | Runtime/ObservableModel.cs:131-133 | ObjectValue's getter: the current value, boxed; never null |
| Observable.ValueModel.Equals | Runtime/ObservableModel.cs:78-81 | Equals(ObservableModel<T>) holds exactly when the other model's Equals(T) accepts this model's value, so comparing two models is symmetric |
| Observable.ValueModel.EqualsValue | Runtime/ObservableModel.cs:88-91 | Equals(T) holds exactly when ObjectValue boxes that very value |
| Observable.ValueModel.EqualsModel | Runtime/ObservableModel.cs:64-71 | Equals(ObservableModel): false for a model of another element type and for anything else; for a model of the same type, whether that model's Equals(T) accepts this model's value |
| Observable.ValueModel.EqualsObject | Runtime/ObservableModel.cs:93-96 | Equals(object) agrees with Equals(ObservableModel) on every reference |
| Observable.OpEq | Runtime/ObservableModel.cs:103 | `a == b` on two models does not depend on the order of the operands |
| Observable.OpNeq | Runtime/ObservableModel.cs:104 | `a != b` on two models is the negation of `a == b` |
| Observable.OpEqValue | Runtime/ObservableModel.cs:105 | `model == value` agrees with `value == model` |
| Observable.OpNeqValue | Runtime/ObservableModel.cs:106 | `model != value` is the negation of `model == value` |
| Observable.OpValueEq | Runtime/ObservableModel.cs:107 | `value == model` holds exactly when the model's ObjectValue boxes that value |
| Observable.OpValueNeq | Runtime/ObservableModel.cs:108 | `value != model` is the negation of `value == model` |
| Observable.ModelEqualityIsValueEquality | Runtime/ObservableModel.cs:78-91 | Equals(model) is equality of the values; `==` agrees with it and `!=` is its negation; Equals(model) is Equals(T) of the other's value |
| Observable.MixedOperatorsAgree | Runtime/ObservableModel.cs:103-108 | The operators with a bare value agree with Equals(T) in both argument orders, and `!=` negates `==` |
| Observable.ModelEqualityIsEquivalence | Runtime/ObservableModel.cs:78-81 | Model equality is reflexive, symmetric and transitive |
| Observable.UntypedEqualsAgree | Runtime/ObservableModel.cs:64-96 | Equals(ObservableModel) and Equals(object) are false for another element type or a non-model, are value equality for a model of the same type, and agree everywhere |
| ObservableLists.ListObj.constructor | Runtime/Collections/List/ObservableListModel.cs:112 | `new List<T>(values)` holds the values |
| ObservableLists.ObservableList.constructor | Runtime/Collections/List/ObservableListModel.cs:26-30 | The proxy wraps the list it is given, for its owner |
| ObservableLists.ObservableList.Count | Runtime/Collections/List/ObservableListModel.cs:43 | The number of items the wrapped list holds now |
| ObservableLists.ObservableList.IndexOf | Runtime/Collections/List/ObservableListModel.cs:74-77 | List.IndexOf on the wrapped list: -1 exactly when the item is absent, otherwise the position of its first occurrence |
| ObservableLists.ObservableList.At | Runtime/Collections/List/ObservableListModel.cs:32-33 | Indexer get: the element for an index inside the list; ArgumentOutOfRange otherwise |
| ObservableLists.ObservableList.Contains | Runtime/Collections/List/ObservableListModel.cs:59-62 | True exactly when some element equals the item |
| ObservableLists.ObservableList.Set | Runtime/Collections/List/ObservableListModel.cs:34-38 | Indexer set: in range, replaces that element of the wrapped list and announces the owner's current Value once; out of range, fails with ArgumentOutOfRange and changes nothing; also through a proxy that a later assignment to the owner has replaced |
| ObservableLists.ObservableList.Add | Runtime/Collections/List/ObservableListModel.cs:47-51 | Appends to the wrapped list, then announces the owner's current Value; also through a proxy that a later assignment to the owner has replaced |
| ObservableLists.ObservableList.Clear | Runtime/Collections/List/ObservableListModel.cs:53-57 | Empties the wrapped list, then announces the owner's current Value; also through a proxy that a later assignment to the owner has replaced |
| ObservableLists.ObservableList.Insert | Runtime/Collections/List/ObservableListModel.cs:79-83 | Index in 0..Count: inserts into the wrapped list and announces the owner's current Value; otherwise fails with ArgumentOutOfRange and changes nothing; also through a proxy that a later assignment to the owner has replaced |
| ObservableLists.ObservableList.Remove | Runtime/Collections/List/ObservableListModel.cs:85-93 | Returns whether the item was present; drops its first occurrence from the wrapped list and announces the owner's current Value only then; also through a proxy that a later assignment to the owner has replaced |
| ObservableLists.ObservableList.RemoveAt | Runtime/Collections/List/ObservableListModel.cs:95-99 | Index in range: deletes from the wrapped list and announces the owner's current Value; otherwise fails with ArgumentOutOfRange and changes nothing; also through a proxy that a later assignment to the owner has replaced |
| ObservableLists.ListModel.constructor | Runtime/Collections/List/ObservableListModel.cs:13-17 | A new list model has null Value and null _initialValue, no subscribers, nothing raised |
| ObservableLists.ListModel.CreateInstance | Runtime/Collections/List/ObservableListModel.cs:123-127 | After Awake and OnEnable, Value wraps the fresh empty _initialValue itself, announced once to nobody |
| ObservableLists.ListModel.InvokeOnValueChanged | Runtime/ObservableModel.cs:45 | Raises the event with the current contents |
| ObservableLists.ListModel.Subscribe | Runtime/ObservableModel.cs:44 | `+=` appends the handler |
| ObservableLists.ListModel.Unsubscribe | Runtime/ObservableModel.cs:44 | `-=` removes the last occurrence of the handler |
| ObservableLists.ListModel.SetValue | Runtime/Collections/List/ObservableListModel.cs:108-120 | Null installs a fresh empty list; the list already wrapped, or the model's own proxy, changes nothing and raises nothing; any other list gets a fresh proxy around that very list, announced once |
| ObservableLists.ListModel.ResetValue | Runtime/ObservableModel.cs:114-117 | Value = _initialValue through that setter: wraps the initial list itself unless it is already wrapped |
| ObservableLists.ListModel.OnEnable | Runtime/ObservableModel.cs:47-54 | Resets exactly when _initialValue is not null and Value is null |
| ObservableLists.ListModel.Awake | Runtime/Collections/List/ObservableListModel.cs:123-127 | A fresh empty _initialValue, installed as Value only if Value was null |
| ObservableLists.ListModel.OnAfterDeserialize | Runtime/Collections/List/ObservableListModel.cs:135-142 | _initialValue made non-null, then installed as Value only if Value was null |
| ObservableLists.ListModel.Set | Runtime/Collections/List/ObservableListModel.cs:161-164 | Forwarded indexer set: contents updated at the index (or ArgumentOutOfRange with nothing changed), one notice |
| ObservableLists.ListModel.Add | Runtime/Collections/List/ObservableListModel.cs:208 | Forwarded Add: contents extended by the item, one notice with the new contents |
| ObservableLists.ListModel.Clear | Runtime/Collections/List/ObservableListModel.cs:213 | Forwarded Clear: empty contents, one notice |
| ObservableLists.ListModel.Insert | Runtime/Collections/List/ObservableListModel.cs:195 | Forwarded Insert, with the same error case and notice |
| ObservableLists.ListModel.Remove | Runtime/Collections/List/ObservableListModel.cs:234 | Forwarded Remove: result, new contents and notice as for the proxy |
| ObservableLists.ListModel.RemoveAt | Runtime/Collections/List/ObservableListModel.cs:202 | Forwarded RemoveAt, with the same error case and notice |
| ObservableLists.ListModel.Equals | Runtime/Collections/List/ObservableListModel.cs:171-181 | True exactly when every element of this list occurs in the other |
| ObservableLists.ContainedIsSubset | Runtime/Collections/List/ObservableListModel.cs:171-181 | That test is inclusion of the element sets |
| ObservableLists.ContainedIsNotEquality | Runtime/Collections/List/ObservableListModel.cs:171-181 | It is neither symmetric nor sensitive to order or multiplicity |
| BoolListModels.Create | Runtime/Collections/List/BoolObservableListModel.cs:16-21 | A fresh model whose contents are the values; _initialValue stays a distinct empty list; two notices, to nobody |
| BoolListModels.All | Runtime/Collections/List/BoolObservableListModel.cs:28-47 | False on an empty list, else whether every element is true |
| BoolListModels.Any | Runtime/Collections/List/BoolObservableListModel.cs:53-63 | Whether some element is true |
| BoolListModels.And | Runtime/Collections/List/BoolObservableListModel.cs:69 | Same as All |
| BoolListModels.Or | Runtime/Collections/List/BoolObservableListModel.cs:74 | Same as Any |
| BoolListModels.NotAll | Runtime/Collections/List/BoolObservableListModel.cs:80 | Negation of All |
| BoolListModels.None | Runtime/Collections/List/BoolObservableListModel.cs:85 | No element is true |
| BoolListModels.Nand | Runtime/Collections/List/BoolObservableListModel.cs:90 | Negation of And |
| BoolListModels.Nor | Runtime/Collections/List/BoolObservableListModel.cs:95 | Negation of Or |
| BoolListModels.AllEqual | Runtime/Collections/List/BoolObservableListModel.cs:101 | True exactly when no two elements differ |
| BoolListModels.CountTrue | Runtime/Collections/List/BoolObservableListModel.cs:107-118 | The number of true elements |
| BoolListModels.CountFalse | Runtime/Collections/List/BoolObservableListModel.cs:124-135 | The number of false elements |
| BoolListModels.AllOrNoneIsUniform | Runtime/Collections/List/BoolObservableListModel.cs:101 | `All() || None()` holds exactly for uniform lists, the empty one included |
| BoolListModels.CountsAddUp | Runtime/Collections/List/BoolObservableListModel.cs:107-135 | CountTrue + CountFalse equals the length |
| BoolListModels.CountsMatchReductions | Runtime/Collections/List/BoolObservableListModel.cs:28-135 | Any iff CountTrue > 0; CountTrue equals the length iff the list is empty or All holds |
| BoolListModels.TruthTable | Runtime/Collections/List/BoolObservableListModel.cs:28-101 | On [] All and Any are false, the list is uniform and has no true element; on [true, true, true] All and Any hold; on [true, true, false] Any holds, All does not, and there are two trues and one false |
| IntListModels.Create | Runtime/Collections/List/IntObservableListModel.cs:19-24 | As BoolListModels.Create, for integers |
| IntListModels.Sum | Runtime/Collections/List/IntObservableListModel.cs:29 | Sum does not fail on an empty list: it is 0 there |
| IntListModels.SumSnoc | Runtime/Collections/List/IntObservableListModel.cs:29 | Sum accumulates from first to last: the sum of all but the last element, plus the last |
| IntListModels.Min | Runtime/Collections/List/IntObservableListModel.cs:33 | InvalidOperation on an empty list; otherwise an element no greater than any element |
| IntListModels.Max | Runtime/Collections/List/IntObservableListModel.cs:37 | InvalidOperation on an empty list; otherwise an element no less than any element |
| IntListModels.Average | Runtime/Collections/List/IntObservableListModel.cs:41 | InvalidOperation on an empty list; otherwise the value whose product with the count is Sum |
| IntListModels.SumAtLeast | Runtime/Collections/List/IntObservableListModel.cs:29 | A lower bound on every element bounds Sum from below by bound times count |
| IntListModels.SumAtMost | Runtime/Collections/List/IntObservableListModel.cs:29 | An upper bound on every element bounds Sum from above by bound times count |
| IntListModels.AverageBetweenMinAndMax | Runtime/Collections/List/IntObservableListModel.cs:33-41 | Min <= Average <= Max on every non-empty list |
| IntListModels.Examples | Runtime/Collections/List/IntObservableListModel.cs:29-41 | Sum, Min, Max and Average of [1, 2, 3] are 6, 1, 3 and 2; on [] Sum is 0 and the others fail |
| IntListModels.ResetAliasesInitialList | Runtime/Collections/List/ObservableListModel.cs:108-127 | After a reset, edits go into the _initialValue list itself, and a second reset keeps them |
| BoolModels.Create | Runtime/BoolObservableModel.cs:12-18 | Initial value and value are the argument (false by default), announced once to nobody |
| BoolModels.ResetRestoresCreatedValue | Tests/Runtime/BoolObservableModelTest.cs:49-61 | Whatever is assigned after Create(v), ResetValue brings back v |
| BoolModels.EqualityOfFreshModels | Tests/Runtime/BoolObservableModelTest.cs:63-77 | Two fresh models are equal under Equals, `==` and `!=`; after one is set to true they are not |
| BoolModels.SubscribeThenUnsubscribe | Tests/Runtime/BoolObservableModelTest.cs:24-47 | A subscriber receives the assigned value; once unsubscribed it receives nothing |
| BoolModels.ObjectValueBridge | Tests/Runtime/BoolObservableModelTest.cs:92-102 | ObjectValue set stores the value and get returns it boxed |
| FloatModels.Create | Runtime/FloatObservableModel.cs:13-19 | As BoolModels.Create, with 0f by default |
| FloatModels.NormalizeDecimal | Runtime/FloatObservableModel.cs:24 | Every ',' becomes '.', nothing else changes |
| FloatModels.CommaOrPointSame | Runtime/FloatObservableModel.cs:24 | Texts that differ only in ',' versus '.' decimal marks reach the parser identically |
| FloatModels.SetStringValue | Runtime/FloatObservableModel.cs:21-25 | The parse of the normalized text is assigned and announced; a rejected text fails with Format and changes nothing |
| FloatModels.ResetRestoresCreatedValue | Runtime/ObservableModel.cs:114-117 | ResetValue brings back the value given to Create |
| Vector2Models.Create | Runtime/Vector2ObservableModel.cs:12-18 | As BoolModels.Create, with Vector2.zero by default |
| Vector2Models.Parse | Runtime/Vector2ObservableModel.cs:20-41 | Succeeds exactly when there are two tokens and both parse, giving (x, y) from tokens 0 and 1; otherwise Format for the first rejected token, or IndexOutOfRange when token 0 parses and token 1 is missing |
| Vector2Models.SetStringValue | Runtime/Vector2ObservableModel.cs:20-41 | On success one assignment and one notice; on failure the error, with value and log unchanged |
| Vector2Models.OneTokenFails | Runtime/Vector2ObservableModel.cs:26-38 | Text with neither ',' nor ' ' after stripping never parses |
| Vector2Models.CommaPairTokens | Runtime/Vector2ObservableModel.cs:24-34 | "a,b" and "(a,b)" give exactly the tokens a and b |
| Vector2Models.CommaPairParses | Runtime/Vector2ObservableModel.cs:20-41 | "a,b" parses to (parse a, parse b) |
| Vector3Models.Create | Runtime/Vector3ObservableModel.cs:12-18 | As BoolModels.Create, with Vector3.zero by default |
| Vector3Models.Parse | Runtime/Vector3ObservableModel.cs:20-42 | Succeeds exactly when there are three tokens and all parse, giving (x, y, z); IndexOutOfRange exactly when a token is missing after the tokens before it parsed; Format exactly when one of the first three tokens that are present fails to parse |
| Vector3Models.SetStringValue | Runtime/Vector3ObservableModel.cs:20-42 | On success one assignment and one notice; on failure the error, with value and log unchanged |
| Vector3Models.CommaTripleParses | Runtime/Vector3ObservableModel.cs:20-42 | "a,b,c" parses to the three parses, and "(a,b,c)" parses the same |
| Vector3Models.PairIsNotAVector3 | Runtime/Vector3ObservableModel.cs:27-41 | "a,b" never parses as a Vector3 |
| Vector2ListModels.Create | Runtime/Collections/List/Vector2ObservableListModel.cs:16-21 | As BoolListModels.Create, for Vector2 |
| Vector3ListModels.Create | Runtime/Collections/List/Vector3ObservableListModel.cs:16-21 | As BoolListModels.Create, for Vector3 |
| Vector3ListModels.RemoveMiddle | Tests/Runtime/List/Vector3ObservableListModelTest.cs:168-173 | RemoveAt(1) on a three-element list succeeds, leaves the outer two in order, and announces exactly those contents |
| Vector3ListModels.OutOfRangeChangesNothing | Runtime/Collections/List/ObservableListModel.cs:195-202 | Out-of-range RemoveAt and Insert fail with ArgumentOutOfRange and announce nothing |
| Catalogs.DistinctKeysCount | Runtime/Catalog/Vector3ObservableModelsCatalog.cs:11-14 | Pairs with distinct names name as many keys as there are pairs |
| Catalogs.ModelsCatalog.constructor | Runtime/Catalog/Vector3ObservableModelsCatalog.cs:10 | A new catalog is empty |
| Catalogs.ModelsCatalog.Count | Tests/Runtime/Catalog/Vector3ObservableModelsCatalogTest.cs:26-30 | The number of names |
| Catalogs.ModelsCatalog.ContainsKey | Tests/Runtime/Catalog/Vector3ObservableModelsCatalogTest.cs:32-46 | Whether the name is filed |
| Catalogs.ModelsCatalog.Get | Tests/Runtime/Catalog/Vector3ObservableModelsCatalogTest.cs:32-40 | The indexer: the filed model, or KeyNotFound exactly when ContainsKey is false |
| Catalogs.ModelsCatalog.TryGetValue | Tests/Runtime/Catalog/Vector3ObservableModelsCatalogTest.cs:48-63 | Found exactly when ContainsKey, with the filed model; null otherwise |
| Catalogs.ModelsCatalog.Add | Runtime/Catalog/Vector3ObservableModelsCatalog.cs:13 | Dictionary.Add: files a new name; an existing name fails with Argument and changes nothing |
| Catalogs.TryGetValueAgreesWithIndexer | Tests/Runtime/Catalog/Vector3ObservableModelsCatalogTest.cs:48-63 | TryGetValue succeeds exactly where the indexer does, with the same model |
| Vector2Catalogs.Create | Runtime/Catalog/Vector2ObservableModelsCatalog.cs:8-16 | Fails with Argument exactly when a name repeats; otherwise Count is the number of pairs, the keys are the names, and each name holds a distinct fresh model created with its value |
| Vector3Catalogs.Create | Runtime/Catalog/Vector3ObservableModelsCatalog.cs:8-16 | As Vector2Catalogs.Create, for Vector3 |
| Vector3Catalogs.AssignmentsStayWithTheirModel | Tests/Runtime/Catalog/Vector3ObservableModelsCatalogTest.cs:66-91 | Every assignment to one model is announced, even of an equal value, and a subscriber of another model hears nothing |

## Left out

- The float grammar. `float.Parse` is a parameter returning an optional
  float, and `ToString` is not modelled. The `StringValue` getters are
  therefore left out.
- The `StringValue` setter of the list model (`Convert.ChangeType` on each
  piece) and the setters of the other primitive models: a foreign
  conversion that is not part of this model.
- The engine's lifecycle. `CreateInstance` is the constructor followed by
  the callbacks the type defines. Asset serialization is out, apart from
  `OnAfterDeserialize` of the list model.
- The catalog base class. Only the dictionary reads, `Add` and the typed
  `Create` are modelled. `OnEnable`, `Keys`, `Values`, the enumerator and
  the serialization callbacks are not. The callbacks also de-duplicate
  keys, and that is left out with them: `OnBeforeSerialize` appends a pair
  only when no serialized pair has its key yet, and `OnAfterDeserialize`
  keeps the first pair of a repeated key and drops the later ones.
- `Observable.ValueModel.Equals` and the operators take non-null
  arguments. Comparisons with a null model, and `GetHashCode`, are not
  modelled.
- The implicit conversion from a model to its value. It is the value
  field itself.
- The multicast delegate's internals. Handlers are identities; what they
  do, and re-entrant changes made from inside a handler, are not modelled.
- `ObservableLists.ListModel.SetValue`: an `IList<T>` that is not a
  `List<T>` (the cast gives null) is not modelled. Among proxies, only the
  model's own is accepted as an argument.
- `CopyTo`, `IsReadOnly` and `GetEnumerator` of the lists: they copy or
  enumerate and change nothing.
- `ObservableLists.ListModel.Count`, `At`, `Contains` and `IndexOf` are
  forwarders. They carry no contract of their own; the proxy's contract
  and `Sequences.FirstIndex` state what they return.
- The overloads `Equals(ObservableModel<IList<T>>)` and `Equals(IList<T>)`
  that the list model inherits compare references. They are not modelled.
- `IntListModels.Min`, `IntListModels.Max`: elements are unbounded
  integers. `IntListModels.Average` is computed exactly over the rationals,
  not in double with a cast to float.
- `IntListModels.Sum` is over unbounded integers. The checked 32-bit
  addition of LINQ's `Sum`, which throws `OverflowException`, is not
  modelled.
- `Numerics.Float32` equality is equality of bit patterns. It differs from
  `float.Equals` on the two zeros and on NaN payloads.
- The vector setters split on a single ' '. Text with several spaces in a
  row gives empty tokens, which the parser then sees.
- `Vector2Catalogs.Create` and `Vector3Catalogs.Create`: when a name
  repeats, `Dictionary.Add` throws partway. The model returns the error and
  does not describe the partly filled catalog, which the caller never
  receives.
