# Contact list retrieval and rendering

This project models the only logic in the contact-filter Android app that is
not platform wiring. It lives in `MainActivity.kt` and has two parts:

- **Retrieval.** `retrieveContacts` walks the contacts provider's result set
  row by row and skips every row whose has-phone-number flag is not positive.
  For each other row it queries that contact's phone numbers and walks that
  second result set too. Each number is normalised and appended to the
  contact's list. The finished contact is added to the output, and both result
  sets are closed.
- **Rendering.** `Contact.toString` builds the text that the list shows for a
  contact: the name, a newline, then every phone number followed by a newline.

The Dafny is in three modules:

- `Cursors` (`cursors.dfy`): a result set, as a class `Cursor<T>`. It holds
  the rows returned by a query, a position from -1 (before the first row) to
  `|rows|` (after the last row), and a `closed` flag. `MoveToFirst` and
  `MoveToNext` answer whether the cursor landed on a row and stop after the
  last row, as the platform's cursors do. `Close` releases the result set.
- `Contacts` (`contacts.dfy`): the `Contact` record. `Rendered` is the
  specification of its text and `ToString` builds that text step by step, as
  the string builder does. `Parse` reads a rendered text back. It serves as
  the inverse that shows rendering loses nothing when no field holds a
  newline.
- `ContactRetrieval` (`retrieval.dfy`): the contact and phone rows.
  `Aggregate` is the specification of the output list. `ReadPhoneNumbers` is
  the inner loop and is proved to return `Normalized` of the phone rows.
  `ContactForRow` is the work done for one row that has phones. It changes no
  object that existed before the call, and it returns its phone result set
  already closed. `RetrieveContacts` is the outer loop and is proved to return
  `Aggregate` of the contact rows. A ghost log of cursor events
  (`CursorEvent`) records when rows are visited and when result sets are
  opened and closed. Its expected
  shape, `ExpectedTrace`, is proved to close each phone result set before the
  next contact row and the contact result set last.

The phone-number normaliser is a parameter `normalize: string -> string`,
about which nothing is assumed. The per-contact phone query is a parameter
`phonesOf: int -> seq<PhoneRow>`: it gives the rows the provider returns for
a contact id, and every call opens a fresh `Cursor` over them.

## Model

| member | source | states |
|---|---|---|
| `Cursors.Cursor.constructor` | app/src/main/kotlin/fr/rolandl/contact/MainActivity.kt:81 | A query's result set starts open, positioned before its first row, over the rows it returned. |
| `Cursors.Cursor.MoveToFirst` | app/src/main/kotlin/fr/rolandl/contact/MainActivity.kt:88 | Answers true exactly when the result set has a row; the cursor is then on row 0, else after the last row. |
| `Cursors.Cursor.MoveToNext` | app/src/main/kotlin/fr/rolandl/contact/MainActivity.kt:118 | Answers true exactly when a next row exists and moves onto it; otherwise the cursor stays after the last row. |
| `Cursors.Cursor.Row` | app/src/main/kotlin/fr/rolandl/contact/MainActivity.kt:92-94 | Reading a column needs an open cursor that is on a row, and gives the fields of the row at the cursor's position. The phone number read at line 105 works the same way. |
| `Cursors.Cursor.Close` | app/src/main/kotlin/fr/rolandl/contact/MainActivity.kt:121-124 | After closing, the result set is closed; nothing else about the cursor changes. |
| `Contacts.ToString` | app/src/main/kotlin/fr/rolandl/contact/MainActivity.kt:34-43 | The builder (name, newline, then each phone followed by a newline) yields exactly `Rendered(c)`. |
| `Contacts.RenderedSize` | app/src/main/kotlin/fr/rolandl/contact/MainActivity.kt:36-42 | The text starts with the name and a newline. Its length is the name's length + 1 + the sum of (length + 1) over the phones. It adds exactly one newline per phone, plus one after the name. |
| `Contacts.ParseRendered` | app/src/main/kotlin/fr/rolandl/contact/MainActivity.kt:34-42 | When neither the name nor any phone holds a newline, reading the text back line by line gives the same contact: name first, phones in order. |
| `Contacts.RenderedParse` | app/src/main/kotlin/fr/rolandl/contact/MainActivity.kt:34-42 | Any text that reads back as a contact is exactly that contact's rendering, so rendering is one-to-one on contacts without embedded newlines. |
| `ContactRetrieval.QualifyingIndices` | app/src/main/kotlin/fr/rolandl/contact/MainActivity.kt:94-96 | The positions of the rows with a positive has-phone flag, strictly increasing. It holds every such row and no other row. |
| `ContactRetrieval.NormalizedRows` | app/src/main/kotlin/fr/rolandl/contact/MainActivity.kt:103-107 | One normalised number per phone row, at that row's position, so duplicates are kept and nothing is reordered. |
| `ContactRetrieval.ContactPhones` | app/src/main/kotlin/fr/rolandl/contact/MainActivity.kt:98-115 | A produced contact has the row's display name. Its phones list has as many entries as the contact's phone rows, each the normalised number of the matching row. |
| `ContactRetrieval.AggregateFollowsRows` | app/src/main/kotlin/fr/rolandl/contact/MainActivity.kt:88-118 | The k-th output contact is built from the k-th row that has phones: the output maps the qualifying rows one-to-one, in their order. |
| `ContactRetrieval.QueriedIdsFollowRows` | app/src/main/kotlin/fr/rolandl/contact/MainActivity.kt:96-115 | The k-th phone query runs for the id of the k-th row that has phones, and the k-th contact holds the normalised numbers of that query. |
| `ContactRetrieval.AggregateSkipsRowsWithoutPhones` | app/src/main/kotlin/fr/rolandl/contact/MainActivity.kt:94-96 | A row is used exactly when its flag is positive, so a row with flag <= 0 yields no contact. The output is never longer than the contact rows. |
| `ContactRetrieval.QualifyingRowKept` | app/src/main/kotlin/fr/rolandl/contact/MainActivity.kt:96-115 | A row with phones always gets its contact in the output. If its phone query returns no rows, the contact is still added, with an empty phone list. |
| `ContactRetrieval.PhonesClosedBeforeNextRow` | app/src/main/kotlin/fr/rolandl/contact/MainActivity.kt:110-113 | In the cursor event log, opening a phone result set is immediately followed by closing it, before any later contact row is visited. |
| `ContactRetrieval.RowsVisitedInOrder` | app/src/main/kotlin/fr/rolandl/contact/MainActivity.kt:88-118 | Every contact row is visited, once each, in result-set order. No event names a row beyond the result set. |
| `ContactRetrieval.PhonesOpenedExactlyForRowsWithPhones` | app/src/main/kotlin/fr/rolandl/contact/MainActivity.kt:96-99 | A phone query is run for a row if and only if its has-phone flag is positive. |
| `ContactRetrieval.ContactsClosedLast` | app/src/main/kotlin/fr/rolandl/contact/MainActivity.kt:121-124 | The contact result set is closed once, as the last event. |
| `ContactRetrieval.ReadPhoneNumbers` | app/src/main/kotlin/fr/rolandl/contact/MainActivity.kt:101-108 | Walking a phone result set from its first row collects exactly the normalised numbers of its rows, in order, and leaves the cursor after the last row. |
| `ContactRetrieval.ContactForRow` | app/src/main/kotlin/fr/rolandl/contact/MainActivity.kt:98-115 | Returns `ContactOf(row)`: the row's name with the normalised numbers of its phone query. The phone result set it opens is over the rows queried for the row's id. It is freshly allocated and closed on return. Nothing that existed before the call is changed. |
| `ContactRetrieval.RetrieveContacts` | app/src/main/kotlin/fr/rolandl/contact/MainActivity.kt:80-124 | The output equals `Aggregate` of the contact rows, and an empty result set yields an empty list. The contact result set ends closed, after its last row. The k-th phone result set is closed, was queried for the k-th row that has phones, and gave the k-th contact's numbers. The event log equals `ExpectedTrace`. |

## Left out

- Permission handling (`onRequestPermissionsResult`, the permission dispatcher, `onCreate`) is Android runtime glue with no logic of its own.
- `ContentResolver.query`, its URIs, projections and the `CONTACT_ID = id` selection string are foreign I/O. Only the rows a query returns are modelled: the contact result set is the cursor passed in, and each phone query is `phonesOf(id)`.
- Column lookup by name (`getColumnIndex`, `getLong`, `getString`, `getInt`) is modelled as reading the fields of a row record. A missing column, a null display name and a null phone number (line 105 passes the `Phone.NUMBER` value straight to the normaliser) are not modelled: `ContactRow.displayName` and `PhoneRow.number` cannot be null.
- `PhoneNumberUtils.normalizeNumber` is a library call whose code is not shown. It is the uninterpreted parameter `normalize`, and nothing is assumed about it, not even idempotence.
- RetrieveContacts: a missing (null) result set is excluded by the non-null `Cursor` type. The code logs a null contact result set at lines 83-85 and then dereferences it at line 88, and it never checks the phone result set at line 99 either. The model does not treat a missing result set as an empty one; that recovery is not what the code does.
- The `doAsync` / `uiThread` handoff to the UI thread, the timing measurements and the log calls are threading and diagnostics. They are not modelled.
- `displayContacts`, the `ArrayAdapter` binding and its built-in filter are library code whose matching rule is not shown, so no filtering property is stated. `onQueryTextChange`, `resetFilter`, the expand/collapse callbacks and `onQueryTextSubmit` only forward a string to that filter or return a constant.
- Menu and `SearchView` inflation are UI wiring.
- The `Serializable` marker and the generated `equals`/`hashCode`/`copy` of the Kotlin data class are not modelled. Dafny datatype equality stands in for `equals`.
