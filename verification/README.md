# Variable objects of the GDB/MI debug backend

This project models the `VariableObject` class of the Renode extension's debug
backend and the `MIError.toString` formatter. A `VariableObject` is the
extension's record of one GDB/MI variable object. It is built from a parsed MI
node and updated from the change records of `-var-update`. It is classified as
compound (expandable into children) or scalar, and it is projected to the
front-end's `DebugProtocol.Variable`.

The model is functional. `VariableObject` is an immutable datatype, and
`applyChanges`, which mutates the object in the source, returns the updated
record instead.

- `MI` (mi.dfy) holds the MI values (c-string, tuple, list) and a parsed node.
  A node is seen only through a lookup by key (`ValueOf`). The module
  also holds JavaScript's `!!` on a lookup result (`Truthy`): an absent field
  and the empty string are false. Every other value is true, including the
  string "0" and every tuple or list.
- `Backend` (backend.dfy) holds the variable object, construction (`FromNode`),
  `ApplyChanges`, repeated updates (`ApplyAll`), `IsCompound`, the projection
  `ToProtocolVariable`, and `MIError` with its `ToString`.
- `BackendProperties` (backend_properties.dfy) holds the lemmas that relate
  these operations.

Modelling choices:

- `valueOf` returns an untyped value. So every field copied from a node keeps
  the lookup result unchanged: `None` when the debugger omitted the field, and
  a tuple or list when it sent one.
- `type` is a Dafny keyword, so the field is named `valueType`.
- `parseInt` is a parameter of type `Value -> Option<int>`, where `None`
  stands for NaN. An absent `numchild` always gives `None`, because
  `parseInt(undefined)` is NaN whatever the conversion does with strings.
  NaN is never greater than zero.
- The front-end handle `id` starts at 0. Nothing in backend.ts assigns it, so
  every update keeps it.
- `MIError` is immutable, so its `source` is fixed at construction.

The "value is `<unknown>`" rule of `toProtocolVariable` holds in one direction
only. An absent value becomes `"<unknown>"`. But a debugger that reports the
literal text `<unknown>` yields the same front-end value, so the placeholder
does not mean "absent" (`UnknownPlaceholderAmbiguous`).

GDB writes the `type_changed` field of a `-var-update` change record as the
c-string "true" or "false", and `has_more` as a number such as "0". The
JavaScript truthiness test treats both "false" and "0" as true. So an ordinary
change record of a variable whose type did not change erases its type (no
`new_type` is sent) and sets `hasMore` (`OrdinaryUpdateWipesType`). See
"## Findings" for the type. `ApplyChanges` and everything built on it
(`ApplyAll` and the lemmas about it) keep the code as written, because they
describe what the extension does. `ApplyChangesIntended` is the corrected
update. For `has_more` the source's TODO (backend.ts:99) names the test
`has_more > 0`, but `!!` accepts "0", so `hasMore` is true for every object
GDB reports with `has_more="0"`. Nothing in this core reads `hasMore`, so the
model keeps the code as written and does not add a corrected flag.

## Model

| member | source | states |
|---|---|---|
| MI.ValueOf | src/code-debug/backend/backend.ts:90-110 | a lookup gives a value exactly when the node reports the field, and then the reported value; an omitted field is "not reported", never an error |
| MI.Truthy | src/code-debug/backend/backend.ts:96-100 | `!!valueOf(...)` holds exactly when the field is present and not the empty string; "0" is truthy |
| Backend.FromNode | src/code-debug/backend/backend.ts:88-101 | a new object has handle 0, copies name, exp, type, value, thread-id and displayhint from the node, has no child count when `numchild` is absent, and has frozen, dynamic and hasMore exactly when those fields are present and non-empty |
| Backend.ApplyChanges | src/code-debug/backend/backend.ts:103-111 | an update keeps name, exp, numchild, thread, frozen and handle. It takes value and displayhint from the node with no fallback. dynamic and hasMore are false when the fields are absent. It adopts `new_type` exactly when `type_changed` is truthy, and otherwise keeps the type |
| Backend.ApplyAll | src/code-debug/backend/backend.ts:103-111 | after any sequence of updates the identity fields are unchanged, and value, displayhint and flags come from the last change record |
| Backend.IsCompound | src/code-debug/backend/backend.ts:113-120 | an object is compound when it has a positive child count, when its value is the elided marker "{...}", or when it is dynamic with an "array" or "map" hint. It is scalar when none of the three signals holds; a NaN child count is not a signal |
| Backend.ApplyChangesIntended | src/code-debug/backend/backend.ts:105-107 | the corrected update: like `ApplyChanges`, but only a `type_changed` of "true" adopts `new_type`; "false" keeps the type |
| Backend.ToProtocolVariable | src/code-debug/backend/backend.ts:122-131 | the front-end variable has name = exp, evaluateName = name, the same type, and variablesReference = handle. Its value is the reported value, or "<unknown>" when there is none |
| Backend.ValueFromProtocol | src/code-debug/backend/backend.ts:126 | gives a value exactly when the front-end value is not the placeholder, and then that value |
| Backend.ToString | src/code-debug/backend/backend.ts:141-143 | the error text is the message followed by " (from <source>)" |
| Backend.MessageOf | src/code-debug/backend/backend.ts:141-143 | gives a message exactly when the text ends with " (from <source>)", and then the message followed by that ending reproduces the text |
| BackendProperties.FromNodeReadsOnlyCreationKeys | src/code-debug/backend/backend.ts:89-101 | two nodes that agree on the ten variable-object fields build the same object |
| BackendProperties.CompoundOfNode | src/code-debug/backend/backend.ts:89-120 | a new object is compound exactly when the node has a positive child count, an elided value "{...}", or is dynamic with an array or map hint. A missing `numchild` never counts as children |
| BackendProperties.UpdateWithCreationNode | src/code-debug/backend/backend.ts:89-111 | construction and update agree: updating a new object with its own node, when the node announces no type change, changes nothing |
| BackendProperties.ApplyChangesReadsOnlyUpdateKeys | src/code-debug/backend/backend.ts:103-111 | two change records that agree on value, type_changed, new_type, dynamic, displayhint and has_more give the same update |
| BackendProperties.ApplyChangesIdempotent | src/code-debug/backend/backend.ts:103-111 | applying the same change record twice equals applying it once |
| BackendProperties.ApplyAllSnoc | src/code-debug/backend/backend.ts:103-111 | a sequence of updates followed by one more equals one update applied to the result of the sequence |
| BackendProperties.ApplyAllType | src/code-debug/backend/backend.ts:105-107 | after a sequence of updates the type is the `new_type` of the last record that announces a type change, or the original type when no record does |
| BackendProperties.TypeAfterOverride | src/code-debug/backend/backend.ts:105-107 | computing the type after a sequence a second time, starting from its own result, changes nothing |
| BackendProperties.ReplayIdempotent | src/code-debug/backend/backend.ts:103-111 | replaying a whole sequence of change records leaves the object as the first replay did |
| BackendProperties.LastUpdateKeepsUnannouncedType | src/code-debug/backend/backend.ts:105-107 | a last change record that announces no type change keeps the type the earlier records left |
| BackendProperties.TypeAfterForgetsStart | src/code-debug/backend/backend.ts:105-107 | once some record in a sequence announces a type change, the type afterwards does not depend on the type before |
| BackendProperties.OrdinaryUpdateWipesType | src/code-debug/backend/backend.ts:105-110 | an ordinary GDB change record (`type_changed="false"`, no `new_type`, `has_more="0"`) erases a known type and sets hasMore as written; the corrected update keeps the type |
| BackendProperties.IntendedAgreesExceptOnFalseTypeChange | src/code-debug/backend/backend.ts:103-111 | the corrected update differs from the code as written only in the type, and only when `type_changed` is truthy but not "true" |
| BackendProperties.ApplyChangesIntendedIdempotent | src/code-debug/backend/backend.ts:103-111 | applying a change record twice with the corrected update equals applying it once |
| BackendProperties.CompoundAfterUpdate | src/code-debug/backend/backend.ts:103-120 | after an update the object is compound exactly when it had children before or the change record shows an elided value or a dynamic array or map |
| BackendProperties.CompoundStable | src/code-debug/backend/backend.ts:103-120 | an object with a positive child count stays compound after any sequence of updates |
| BackendProperties.CompoundExamples | src/code-debug/backend/backend.ts:89-120 | numchild 2 is compound; numchild 0 dynamic with an array hint is compound; numchild 0 with value 5 is not; a "0" flag is true and an empty one false |
| BackendProperties.ProtocolIdentityStable | src/code-debug/backend/backend.ts:103-131 | the front-end name, evaluateName and handle are unchanged by any sequence of updates |
| BackendProperties.FreshObjectHasNoHandle | src/code-debug/backend/backend.ts:88-131 | a newly built object projects to variablesReference 0 |
| BackendProperties.ProtocolValueRoundTrip | src/code-debug/backend/backend.ts:126 | the reported value is recovered from the front-end variable unless it was the literal "<unknown>" |
| BackendProperties.UnknownPlaceholderAmbiguous | src/code-debug/backend/backend.ts:126 | an absent value and a reported "<unknown>" give the same front-end variable |
| BackendProperties.ToStringRoundTrip | src/code-debug/backend/backend.ts:141-143 | the message is recovered from the error text given the source |
| BackendProperties.ToStringInjectiveForSource | src/code-debug/backend/backend.ts:135-143 | two errors from the same source have the same text only if they have the same message |

## Findings

| source | as written | input that shows it | evidently intended | confidence | as-written member | corrected member |
|---|---|---|---|---|---|---|
| src/code-debug/backend/backend.ts:105-107 | any non-empty `type_changed` adopts `new_type` | a change record with `type_changed="false"` and no `new_type`, for an object whose type is known: the type becomes undefined | adopt `new_type` only when `type_changed` is "true" | high, not executed | BackendProperties.OrdinaryUpdateWipesType | Backend.ApplyChangesIntended |

## Left out

- MI record parsing (`./mi_parse`): it is not part of this model. A node is only its key lookup. Path expressions (`a.b[0]`) and repeated keys are not modelled.
- `parseInt`: its prefix-parsing rules are not modelled. The conversion is a parameter, and only `parseInt(undefined)` = NaN is built in. A conversion that overflows to `Infinity` is not modelled either.
- `IBackend` and the `Breakpoint`, `Thread`, `Stack`, `Variable` and `RegisterValue` shapes (backend.ts:12-75): these are declarations without behaviour. The behaviour behind them is asynchronous traffic with an external debugger process.
- `DebugProtocol.Variable`: only the five fields the projection fills are modelled. It is an external library type.
- Assigning the front-end handle `id`: it happens in session code that is not part of this model.
- `MIError`'s inherited `Error` members (`name`, `stack`): they come from the JavaScript runtime.
- `src/fs.ts` (file-system provider delegating every call to the plugin context) and `src/common/peripheral.ts` (two getters): they are not part of the variable-object core.
- `Backend.ToProtocolVariable`: states "<unknown>" as the value of an absent one, but not the converse, because a reported "<unknown>" gives the same text (see `UnknownPlaceholderAmbiguous`).
