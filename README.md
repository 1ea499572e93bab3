# LazySplit split creation, modelled in Dafny

LazySplit is a bill-splitting web application. A user creates a *split*: a
description, a total amount in paise, a number of people, and the creator's
name and UPI id. The split has an optional list of participant names. This
project models the one piece of logic that creates a split: the `POST`
handler of `app/api/splits/route.ts`. It proves properties of that model.

The handler does three things in order:

1. **Validate.** If any of `description`, `totalAmount`, `numberOfPeople`,
   `creatorName` or `creatorUpiId` is falsy in the JavaScript sense, it
   answers 400 and writes nothing.
2. **Compute.** It sets `perPersonAmount = Math.floor(totalAmount / numberOfPeople)`.
3. **Insert.** It inserts one row into `splits`. Then, if `participantNames`
   is an array, it walks the entries in order. It trims each one and inserts
   a row into `participants` for every name that is not blank after trimming.

The files:

- `records.dfy` (module `Records`): the row shapes of the `splits` and
  `participants` tables, with their column defaults, and the key
  constraints (primary keys, the foreign key to `splits`).
- `js.dfy` (module `Js`): the JavaScript value kinds a JSON body can hold,
  truthiness, and `String.prototype.trim`. Trim strips the fixed set of
  ECMAScript white-space and line-terminator characters from both ends.
- `splits_route.dfy` (module `SplitsRoute`): the request and the response,
  the validation guard, the floor division and the specification functions
  of the participant loop. It also holds the `Ledger` class: its two fields
  are the two tables, and its `CreateSplit` method is the handler, with the
  participant loop as a `while` loop in `InsertParticipants`.

How the model stands in for what it cannot see:

- The UUID generator becomes parameters. `CreateSplit` gets the split id and
  a sequence of participant ids, in the order the handler would ask for them.
  It requires them to be unused and pairwise distinct (`FreshIds`). The
  `k`-th inserted participant takes the `k`-th id.
- SQLite's `CURRENT_TIMESTAMP` for `created_at` becomes a `now` parameter.
- The JSON body becomes a `Request`. The five required fields are typed
  options: `None` stands for a field that is absent or `null`.
  `participantNames` may be any JSON value.
- A `participantNames` entry that is not a string makes `name.trim()` throw.
  The `catch` then answers 500. The rows already inserted stay, because the
  inserts are not in a transaction. The model keeps exactly that: the loop
  stops at the first non-string entry, and `CreateSplit` answers `Failed`
  (status 500) with the split row and the earlier participant rows in place.

Four facts about the route shape the model:

- The route does not de-duplicate names, so repeated names give repeated
  participant rows.
- The inserts run outside a transaction, so an entry that throws leaves the
  split row and the earlier participant rows behind (see above).
- The guard only tests truthiness, so negative amounts pass
  (`NegativeAmountsAccepted`). The division then rounds toward negative
  infinity, as `Math.floor` does (`FloorDiv`).
- The route adds no participant row for the creator; only the names in
  `participantNames` become participants.

## Model

| member | source | states |
|---|---|---|
| `SplitsRoute.Ledger.CreateSplit` | app/api/splits/route.ts:5-45 | A request missing a required field gets 400, and both tables stay unchanged. Otherwise exactly one split row is appended, carrying the request's fields, the floored share and the fresh split id. The participants gain the rows of the kept names of the leading string entries, each under its fresh id. When `participantNames` is not an array (`Entries` is then empty) no participant is added and the answer is 201. Over `Status`: the answer is 400 exactly when a field is missing, 201 exactly when the guard passes and every entry is a string, and 500 exactly when the guard passes and some entry is not. The key and foreign-key invariant is kept. |
| `SplitsRoute.Ledger.InsertParticipants` | app/api/splits/route.ts:25-34 | Given valid tables, an existing split and fresh distinct ids, the loop appends `Rows(splitId, Kept(names), ids)` to the participants, where `names` are the string entries before the first non-string one, and the tables stay valid. It reports completion exactly when every entry is a string. |
| `SplitsRoute.Ledger.SplitAppendedValid` | lib/db.ts:9-27 | Appending a split under an unused id keeps the split ids unique, and every participant still names an existing split. |
| `SplitsRoute.Ledger.RowsAppendedValid` | lib/db.ts:9-27 | Appending participant rows for an existing split, under fresh pairwise-distinct ids, keeps the participant ids unique and every participant naming an existing split. |
| `SplitsRoute.Ledger.constructor` | lib/db.ts:9-27 | The empty tables satisfy the key and foreign-key invariant. |
| `SplitsRoute.ErrorText` | app/api/splits/route.ts:11-43 | An answer carries an error text exactly when it is not a created split (400 and 500 do, 201 does not). |
| `Js.Truthy` | app/api/splits/route.ts:11 | JavaScript's ToBoolean, the test `!field` negates. `FalsyValues` states that exactly `undefined`, `null`, `false`, `0` and `""` are falsy. |
| `Js.FalsyValues` | app/api/splits/route.ts:11 | A value is falsy exactly when it is `undefined`, `null`, `false`, `0` or `""`; every array and object is truthy. |
| `SplitsRoute.TextGiven` | app/api/splits/route.ts:11 | A text field passes `!field` when present and truthy. Characterised, with the other four fields, by `GuardAccepts`. |
| `SplitsRoute.NumberGiven` | app/api/splits/route.ts:11 | A number field passes `!field` when present and truthy. Characterised by `GuardAccepts`. |
| `SplitsRoute.HasRequiredFields` | app/api/splits/route.ts:11 | The guard of the 400 answer. `GuardAccepts` states it in terms of the fields; `GuardExcludesZeroDivisor` and `CreateSplit` use it. |
| `SplitsRoute.GuardAccepts` | app/api/splits/route.ts:11 | The guard passes exactly when all five fields are present, the three texts are not empty and the two amounts are not zero. |
| `SplitsRoute.GuardExcludesZeroDivisor` | app/api/splits/route.ts:11-16 | A request passing the guard has a non-zero number of people, so the division never divides by zero. |
| `SplitsRoute.FloorDiv` | app/api/splits/route.ts:16 | `Math.floor(a / b)` on integers. For a positive divisor, `q*b <= a < q*b + b`. For a negative one, the bounds are mirrored. |
| `SplitsRoute.FloorDivUnique` | app/api/splits/route.ts:16 | For a positive divisor, only the floor satisfies those bounds, so `FloorDiv(a, b)` is `floor(a / b)`. |
| `SplitsRoute.PerPersonBounds` | app/api/splits/route.ts:16 | For positive inputs, `0 <= share <= total` and `share * people <= total < (share + 1) * people`. |
| `SplitsRoute.PerPersonExample` | app/api/splits/route.ts:16 | 2400 paise among 3 people is 800 each. |
| `SplitsRoute.NegativeAmountsAccepted` | app/api/splits/route.ts:11-16 | A request with -100 paise among -3 people passes the guard, and its share is 33. |
| `SplitsRoute.NewSplit` | app/api/splits/route.ts:15-22 | The inserted split row carries the request's five fields, the given id and timestamp, and the share `FloorDiv(total, people)`, which lies within the floor bounds whenever both amounts are positive. |
| `SplitsRoute.TextPrefixLength` | app/api/splits/route.ts:29-30 | The loop gets exactly this far: every entry before this index is a string, and the entry at the index, if any, is not. |
| `SplitsRoute.StringArrayCompletes` | app/api/splits/route.ts:29-30 | An array of strings is walked to the end. |
| `SplitsRoute.Texts` | app/api/splits/route.ts:29 | One text per string entry. |
| `SplitsRoute.TextsAt` | app/api/splits/route.ts:29 | The `j`-th text is the string of the `j`-th entry. |
| `SplitsRoute.TextsSnoc` | app/api/splits/route.ts:29 | One more string entry adds its text at the end. |
| `SplitsRoute.Kept` | app/api/splits/route.ts:29-33 | The trimmed non-blank names, in input order. Characterised by `KeptConcat`, `KeptSingle`, `BlankNameAddsNothing`, `NonBlankNameKeptInPlace`, `KeptCount`, `KeptNoLonger`, `KeptTrimmed` and `KeptFromInput`. |
| `SplitsRoute.KeptConcat` | app/api/splits/route.ts:29-33 | Filtering the names commutes with concatenation, so names keep their input order. |
| `SplitsRoute.KeptSingle` | app/api/splits/route.ts:30-31 | One name alone is kept in trimmed form, unless it is blank. |
| `SplitsRoute.BlankNameAddsNothing` | app/api/splits/route.ts:30 | A name that is blank after trimming contributes nothing, wherever it stands. |
| `SplitsRoute.NonBlankNameKeptInPlace` | app/api/splits/route.ts:29-33 | A non-blank name is kept, trimmed, between the kept names before it and those after it. |
| `SplitsRoute.KeptCount` | app/api/splits/route.ts:29-33 | The number of kept names equals an independent count of the names that are not blank after trimming. |
| `SplitsRoute.KeptNoLonger` | app/api/splits/route.ts:29-33 | No more names are kept than were given. |
| `SplitsRoute.KeptTrimmed` | app/api/splits/route.ts:30-31 | Every kept name is non-empty and has no white space at either end. |
| `SplitsRoute.KeptFromInput` | app/api/splits/route.ts:31 | Every kept name is the trimmed form of one of the given names. |
| `SplitsRoute.Rows` | app/api/splits/route.ts:26-31 | One participant row per kept name. |
| `SplitsRoute.RowsAt` | app/api/splits/route.ts:26-31 | Row `k` has the `k`-th fresh id, the new split's id, the `k`-th kept name, `has_paid` false and no `marked_paid_at`. |
| `SplitsRoute.RowsSnoc` | app/api/splits/route.ts:31 | The rows of one more name end in that name's row. |
| `SplitsRoute.AppendedRows` | app/api/splits/route.ts:25-34 | The appended rows number as many as the non-blank names. Each has the new split's id, a trimmed non-empty name and the column defaults, and no two share an id. |
| `SplitsRoute.InsertedRows` | app/api/splits/route.ts:29-33 | The rows the loop builds, one step per name, are never more than the names. |
| `SplitsRoute.InsertedRowsSnoc` | app/api/splits/route.ts:30-32 | One turn of the loop: a blank name inserts nothing, any other inserts one row under the next unused id. |
| `SplitsRoute.InsertedRowsAreRows` | app/api/splits/route.ts:29-33 | The rows built step by step are the rows of the kept names under the first fresh ids. |
| `SplitsRoute.FreshIds` | app/api/splits/route.ts:15-31 | What `CreateSplit` requires of the UUIDs: the split id is no split's id, and the participant ids are fresh (`FreshParticipantIds`). |
| `SplitsRoute.FreshParticipantIds` | app/api/splits/route.ts:31 | What `InsertParticipants` requires of the participant UUIDs: pairwise distinct and no participant's id. `RowsAppendedValid` shows this keeps the primary key. |
| `Js.IsWhiteSpace` | app/api/splits/route.ts:30-31 | The characters `trim()` removes: the ECMAScript WhiteSpace and LineTerminator code points. `WhiteSpaceExamples` pins members and non-members. |
| `Js.WhiteSpaceExamples` | app/api/splits/route.ts:30-31 | Space, tab, no-break space and the byte-order mark are white space; a letter and the zero-width space U+200B are not. |
| `Js.TrimStart` | app/api/splits/route.ts:30-31 | Leading white space removed. Characterised by `TrimStartSpec`. |
| `Js.TrimEnd` | app/api/splits/route.ts:30-31 | Trailing white space removed. Characterised by `TrimEndSpec`. |
| `Js.Trim` | app/api/splits/route.ts:30-31 | `String.prototype.trim`. Characterised by `TrimIsSlice`, `TrimEnds`, `TrimBlankIff`, `TrimUntouched` and `TrimIdempotent`. |
| `Js.TrimStartSpec` | app/api/splits/route.ts:30-31 | `TrimStart(s)` is the suffix of `s` that starts at its first non-white-space character. Everything before it is white space. |
| `Js.TrimEndSpec` | app/api/splits/route.ts:30-31 | `TrimEnd(s)` is the prefix of `s` that ends at its last non-white-space character. Everything after it is white space. |
| `Js.TrimEnds` | app/api/splits/route.ts:30-31 | A trimmed string is no longer than the input and neither begins nor ends with white space. |
| `Js.TrimIsSlice` | app/api/splits/route.ts:30-31 | `trim()` returns a contiguous slice of the input, and everything outside the slice is white space. |
| `Js.TrimBlankIff` | app/api/splits/route.ts:30 | `s.trim()` is empty exactly when every character of `s` is white space. |
| `Js.TrimUntouched` | app/api/splits/route.ts:31 | A string with no white space at either end trims to itself. |
| `Js.TrimIdempotent` | app/api/splits/route.ts:30-31 | Trimming twice is trimming once. |
| `Js.TrimExamples` | app/api/splits/route.ts:30-31 | `" Bob "` trims to `"Bob"`, `"Ann"` to itself, and `"  "` and `"\t  \n"` to `""`. |

## Left out

- JSON parsing (`request.json()`): the model starts from the parsed body, so a body that fails to parse (a 500) is not modelled.
- Database failures and UUID-library failures, which also end in the `catch` (500), are not modelled. The only exception modelled is the one a non-string participant entry raises. The `console.error` logging is left out too.
- Field types: a required field that holds a JSON value of another type is not modelled. A `totalAmount` of `"2400"`, for instance, goes through JavaScript's number coercion. Non-integer numbers, `NaN` and the loss of precision above 2^53 are floating-point and left out; amounts are unbounded integers.
- SplitsRoute.FloorDiv: does not model the 64-bit range of SQLite `INTEGER` columns or JavaScript's 53-bit integer precision, because amounts are unbounded integers here.
- SplitsRoute.Ledger.CreateSplit: requires one supplied participant id per entry of `participantNames`. This stands in for a UUID generator that never runs out. Only as many ids are used as there are kept names.
- The schema DDL, the index on `participants(split_id)`, opening the database file and cascade delete (lib/db.ts) are set-up and datastore behaviour. Only the column list is used, as the shape of the rows.
- Strings: JavaScript strings are sequences of UTF-16 code units, and a Dafny `string` holds Unicode scalar values. A string with a lone surrogate (such as `"\uD800"`) therefore cannot be represented. Trim is unaffected, because every white-space character lies in the Basic Multilingual Plane.
- The other routes (reading a split, joining, toggling paid), the user-profile route, local storage, and the React pages and components are not part of this model. That includes the form's floating-point preview and its rupee-to-paise conversion.
