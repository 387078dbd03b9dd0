# Blog post manager: a Dafny model of the `BlogApp` state

`BlogApp` is a React component that manages short posts in memory. Each post has an id, a title, a
body, an author, a category and a date. The component's state is:

- the post list;
- a module-level id counter that starts at 4, because the three seed posts use ids 1 to 3;
- a form with four fields;
- an optional edit target (`editId`);
- a search text;
- a category filter, where `"Tous"` means every category.

This project models that state as an immutable `State` record. Each event handler is a pure
transition on it:

- `handleChange`: one form field takes a new value.
- `handleSubmit`: validates the form, then creates or updates a post.
- `handleEdit`: loads a post into the form.
- `handleDelete`: removes posts by id.
- `handleCancel`: leaves edit mode.

It also models the search box and filter select handlers, the visible-list projection `filtered`
and the `initials` helper. Every contract and lemma in the "## Model" table is proved by the
verifier. The statements about JavaScript and React under "## Left out", and the description of
how the page wires its buttons, are not.

Files and modules:

- `js_array.dfy`, module `JsArray`: `Array.prototype.filter` and `map` over sequences, with
  order-preserving subsequence, membership and multiplicity contracts.
- `js_string.dfy`, module `JsString`: the string built-ins the component calls. These are `trim`
  (with the whole ECMAScript whitespace set), `toLowerCase`/`toUpperCase`, `includes` and
  `split(" ")`.
- `blog_app.dfy`, module `BlogApp`: the constants, the data model, the store operations, the
  handlers, the projection and `initials`.
- `blog_app_properties.dfy`, module `BlogAppProperties`: sessions, meaning the events the rendered
  page can produce, applied in order. It also holds the id invariant, the proof that a deleted id
  never returns, how the handlers combine, and worked examples.

Three behaviours of the code shape the model:

- **Delete while editing.** A user can click edit on a post and then delete that same card.
  `handleDelete` (src/components/BlogApp.js:180-181) does not clear `editId`, so the next valid
  submit edits a missing id. That submit changes no post and leaves the counter as it is
  (`DeleteThenSubmitChangesNothing`), and like every accepted submit it resets the form and leaves
  edit mode (`HandleSubmit`).
- **Delete removes every match.** `handleDelete` removes every post with that id. That is exactly
  one post when ids are unique (`DeleteRemovesExactlyOne`), and every reachable state has unique
  ids (`ReachableIdsUnique`).
- **Any string as category.** `handleChange` stores whatever string the form control sends, so the
  form, and the posts made from it, may hold any string as category.

The page only sends an edit or delete click from a card it shows, that is, from the `filtered`
list. It only shows the cancel button in edit mode. The session model (`BlogAppProperties.Apply`)
follows this. The handlers themselves take any post or id, as the component's handlers do.

## Model

| member | source | states |
|---|---|---|
| `JsArray.Filter` | src/components/BlogApp.js:180-181 | `filter` returns an order-preserving subsequence. An element is in it iff it was in the input and passes the test, and each kept element keeps its multiplicity. |
| `JsArray.Map` | src/components/BlogApp.js:147-149 | `map` keeps the length, and position `i` of the result is the function applied to position `i` of the input. |
| `JsArray.FilterKeepsAll` | src/components/BlogApp.js:197-204 | A filter that every element passes returns the list unchanged. |
| `JsArray.FilterCongruent` | src/components/BlogApp.js:197-204 | Two tests that agree on every element select the same sublist. |
| `JsArray.FilterDropsOne` | src/components/BlogApp.js:181 | A filter that rejects only position `k` returns the list with exactly that element cut out. |
| `JsString.TrimStart` | src/components/BlogApp.js:142 | The result is a suffix of the input. Everything removed is whitespace, and the result does not start with whitespace. |
| `JsString.TrimEnd` | src/components/BlogApp.js:142 | The result is a prefix of the input. Everything removed is whitespace, and the result does not end with whitespace. |
| `JsString.Trim` | src/components/BlogApp.js:142 | `trim()` is a slice of the input with only whitespace around it, and it neither starts nor ends with whitespace. It is empty (falsy) iff the input is all whitespace. |
| `JsString.TrimFacts` | src/components/BlogApp.js:142 | Trimming the start and then the end gives a whitespace-framed slice that neither starts nor ends with whitespace, and is empty iff the input is all whitespace. |
| `JsString.StrippedSlice` | src/components/BlogApp.js:142 | A suffix behind whitespace, cut to a prefix followed by whitespace, is a slice of the original framed by whitespace. |
| `JsString.TrimEndsNonWhitespace` | src/components/BlogApp.js:142 | Trimming the end of a string that does not start with whitespace leaves one that neither starts nor ends with whitespace. |
| `JsString.TrimEmptyIff` | src/components/BlogApp.js:142 | The two-sided trim is empty exactly when the input is all whitespace. |
| `JsString.BlankIffTrimEmpty` | src/components/BlogApp.js:142 | The validation's blankness test (all whitespace) holds exactly when `trim()` returns the empty, falsy string. |
| `JsString.Lower` | src/components/BlogApp.js:198-201 | `toLowerCase()` keeps the length and maps each character on its own, by `LowerChar`. |
| `JsString.Upper` | src/components/BlogApp.js:81 | `toUpperCase()` keeps the length and maps each character on its own, by `UpperChar`. |
| `JsString.LowerForgetsCase` | src/components/BlogApp.js:198-201 | Lower-casing is idempotent, and lower-casing an upper-cased string gives the same result as lower-casing the original. |
| `JsString.IncludesIff` | src/components/BlogApp.js:200-201 | `includes(q)` holds iff `q` occurs at some position of the string. |
| `JsString.Includes` | src/components/BlogApp.js:200-201 | A string only includes a query no longer than itself, and it includes the empty query. |
| `JsString.IncludesEmpty` | src/components/BlogApp.js:198-201 | The empty search text is included in every string. |
| `JsString.Split` | src/components/BlogApp.js:78 | `split(" ")` yields at least one piece, and no piece contains a space. |
| `JsString.JoinSplit` | src/components/BlogApp.js:78 | Joining the pieces of `split(" ")` with spaces gives back the input. |
| `JsString.SplitJoin` | src/components/BlogApp.js:78 | Splitting space-free pieces joined by spaces gives back those pieces. |
| `BlogApp.SetField` | src/components/BlogApp.js:133 | `{...f, [name]: value}` sets the named field and leaves the other three as they were. |
| `BlogApp.Overwrite` | src/components/BlogApp.js:148 | `{...post, ...form}` takes the four form fields and keeps the post's id and date. |
| `BlogApp.UpdatePosts` | src/components/BlogApp.js:147-149 | The edit update keeps the length, the order, every id and every date. Posts with the target id take the form's fields, all others are unchanged, and an absent id changes nothing. |
| `BlogApp.DeletePosts` | src/components/BlogApp.js:180-181 | The delete filter returns a subsequence with no post of that id. It keeps every other post with its multiplicity, and an absent id changes nothing. |
| `BlogApp.Submittable` | src/components/BlogApp.js:142 | A form the guard accepts has a non-empty title, content and author. |
| `BlogApp.SubmittableIffTrimmed` | src/components/BlogApp.js:142-143 | The guard accepts the form exactly when none of `title.trim()`, `content.trim()` and `author.trim()` is empty. |
| `BlogApp.HandleChange` | src/components/BlogApp.js:132-133 | The named form field takes the value. The other fields, the posts, the counter, the edit target, the search and the filter are unchanged. |
| `BlogApp.SubmitCreate` | src/components/BlogApp.js:151-154 | Create mode puts one post in front, with the counter's id, the form's fields and the given date. The old list follows it unchanged and the counter goes up by one. Under the invariant the new id is fresh and ids stay unique and below the counter. |
| `BlogApp.SubmitEdit` | src/components/BlogApp.js:145-150 | Edit mode updates the target in place, keeping length, ids and dates. Other posts are unchanged and a missing target changes nothing. It clears the edit target and keeps the counter and the invariant. |
| `BlogApp.HandleSubmit` | src/components/BlogApp.js:141-158 | A blank title, content or author leaves the whole state unchanged. Otherwise it does the create or edit effects above, then returns to an empty form in create mode. It keeps the search, the filter and the invariant, and a created id is fresh. |
| `BlogApp.HandleEdit` | src/components/BlogApp.js:165-172 | The edit target becomes the post's id, and the form holds exactly its four editable fields. The posts, the counter, the search and the filter are unchanged. |
| `BlogApp.HandleDelete` | src/components/BlogApp.js:180-181 | The posts with that id are removed and the others keep their relative order. An absent id is a no-op, and the edit target, the form and the counter are unchanged. |
| `BlogApp.HandleCancel` | src/components/BlogApp.js:186-189 | Cancel returns to create mode with the empty form and changes neither the posts nor the counter. |
| `BlogApp.SetSearch` | src/components/BlogApp.js:312 | The search text takes the typed value, and nothing else changes. |
| `BlogApp.SetFilterCat` | src/components/BlogApp.js:318 | The category filter takes the chosen value, and nothing else changes. |
| `BlogApp.Visible` | src/components/BlogApp.js:197-204 | `filtered` is an order-preserving subsequence of the posts. A post is in it iff its lower-cased title or author includes the lower-cased search, and the filter is `"Tous"` or equals its category. |
| `BlogApp.FirstChars` | src/components/BlogApp.js:79-80 | `map(n => n[0]).join("")` has at most one character per piece, exactly one when no piece is empty, and starts with the first piece's first character. |
| `BlogApp.FirstCharsOfSplit` | src/components/BlogApp.js:78-80 | The first characters of the pieces of `split(" ")`, joined, are exactly the characters that begin a word of the name. |
| `BlogApp.Initials` | src/components/BlogApp.js:76-82 | The result has at most two characters: the upper-cased first characters of the name's first two words, or fewer if the name has fewer words. |
| `BlogAppProperties.InitialInv` | src/components/BlogApp.js:37-68 | The seed state has three posts with distinct ids below the counter, which starts at 4. |
| `BlogAppProperties.InitialState` | src/components/BlogApp.js:107-124 | The first render holds the seed posts, the empty form with the first category, no edit target, an empty search and the `"Tous"` filter. |
| `BlogAppProperties.Apply` | src/components/BlogApp.js:285-318 | An edit or delete click either changes nothing or acts on a post of the visible list. A cancel click leaves edit mode without touching the posts or the counter, and changes nothing outside edit mode, where the button is not shown. |
| `BlogAppProperties.EditClick` | src/components/BlogApp.js:372-377 | An edit click either changes nothing, for a position past the visible list, or loads a post of the visible list. |
| `BlogAppProperties.DeleteClick` | src/components/BlogApp.js:379-384 | A delete click either changes nothing, for a position past the visible list, or deletes the id of a post of the visible list. |
| `BlogAppProperties.ApplyPreservesInv` | src/components/BlogApp.js:132-189 | Every user event keeps ids unique and below the counter, keeps the edit target below the counter, and never lowers the counter. |
| `BlogAppProperties.DeleteKeepsInv` | src/components/BlogApp.js:180-181 | Deleting keeps the remaining ids unique and below the counter. |
| `BlogAppProperties.RunPreservesInv` | src/components/BlogApp.js:68 | Any sequence of events from a state that satisfies the invariant ends in one that does, with a counter at least as large. |
| `BlogAppProperties.ReachableIdsUnique` | src/components/BlogApp.js:153 | In every state a session reaches from the seed state, the posts carry pairwise distinct ids. |
| `BlogAppProperties.ApplyKeepsIdAbsent` | src/components/BlogApp.js:132-189 | No single event gives any post an id that is below the counter and held by no post. |
| `BlogAppProperties.SubmitKeepsIdAbsent` | src/components/BlogApp.js:141-158 | No submit gives any post an id that is below the counter and held by no post. |
| `BlogAppProperties.AbsentIdStaysAbsent` | src/components/BlogApp.js:68 | An id below the counter that no post holds is never held by any post again, whatever events follow. |
| `BlogAppProperties.DeletedIdNeverReturns` | src/components/BlogApp.js:180-181 | After a post is deleted, no post ever carries its id again: ids are never reused. |
| `BlogAppProperties.DeleteRemovesExactlyOne` | src/components/BlogApp.js:180-181 | With unique ids, deleting the id at position `k` gives the list with exactly that post cut out. |
| `BlogAppProperties.DeleteThenSubmitChangesNothing` | src/components/BlogApp.js:145-157 | After the post being edited is deleted, the next submit changes neither the list nor the counter. If the form passes validation, it resets the form and leaves edit mode. |
| `BlogAppProperties.EditThenSubmitUnchanged` | src/components/BlogApp.js:145-172 | Loading a post into the form and submitting it unchanged gives back the same list, whether or not validation accepts it. When the post's own fields pass validation, edit mode is left. |
| `BlogAppProperties.EditThenCancel` | src/components/BlogApp.js:165-189 | Editing and then cancelling restores the state, except that the form is emptied and the mode is create. |
| `BlogAppProperties.VisibleAllByDefault` | src/components/BlogApp.js:121-124 | With the initial empty search and the `"Tous"` filter, the visible list is the whole list. |
| `BlogAppProperties.SearchIgnoresCase` | src/components/BlogApp.js:198-201 | Typing the search in upper or lower case shows the same posts, for the ASCII and Latin-1 case pairs the model maps. |
| `BlogAppProperties.InitialsExample` | src/components/BlogApp.js:74 | `initials("Léa Moreau")` is `"LM"`. |
| `BlogAppProperties.WordStartsOfExample` | src/components/BlogApp.js:74 | The words of `"Léa Moreau"` begin with `L` and `M`. |
| `BlogAppProperties.VisibleExampleBoth` | src/components/BlogApp.js:197-204 | Searching `"a"` in every category shows both of the posts Alpha/Bob and Beta/Alice. |
| `BlogAppProperties.VisibleExampleOne` | src/components/BlogApp.js:197-204 | Searching `"alice"` in `"Design"` shows only Beta/Alice. |
| `BlogAppProperties.VisibleExampleNone` | src/components/BlogApp.js:197-204 | Searching `"zzz"` shows neither example post, under every category filter. |
| `BlogAppProperties.HiddenWithoutZ` | src/components/BlogApp.js:197-204 | A post whose lower-cased title and author contain no `z` is hidden by the search `"zzz"`, under every category filter. |
| `BlogAppProperties.NotIncludesMissingChar` | src/components/BlogApp.js:200-201 | A string that lacks the first character of a non-empty `q` does not include `q`. |

## Left out

- Rendering: JSX markup, CSS classes, aria attributes, the navbar's post count and pluralisation, the empty-state markup and the `animationDelay` float (src/components/BlogApp.js:208-411). These are presentation only.
- `window.scrollTo` in `handleEdit`: a browser side effect with no state.
- `formatDate` and `toLocaleDateString("fr-FR")`: they depend on the clock and the locale. The date is an opaque string parameter of `HandleSubmit` and `SubmitCreate`.
- JsString.LowerChar: maps only ASCII `A`-`Z` and the Latin-1 capitals U+00C0-U+00DE (except U+00D7). JavaScript's `toLowerCase` covers all of Unicode, and some of its mappings change the string's length.
- JsString.UpperChar: maps only ASCII `a`-`z` and the Latin-1 small letters U+00E0-U+00FE (except U+00F7). `ß`, `ÿ`, `µ` and every non-Latin-1 letter stay as they are, unlike `toUpperCase` (for example, `"ß"` becomes `"SS"`).
- Strings are sequences of Unicode scalar values, not UTF-16 code units. For any word of the name that starts with a character outside the Basic Multilingual Plane, `n[0]` in `initials` would be half a surrogate pair in JavaScript.
- Ids and the counter are unbounded naturals. In JavaScript `nextId` is a Number: once it reaches 2^53, `nextId++` at src/components/BlogApp.js:153 no longer changes it, so from then on every create reuses the same id. `ReachableIdsUnique`, `AbsentIdStaysAbsent` and `DeletedIdNeverReturns` hold for sessions that create fewer than 2^53 - 4 posts, which is not stated as a precondition.
- React's `useState` batching and StrictMode's second call of updater functions, which would increment `nextId` twice at :153. Each handler is one atomic transition.
- The module-level `nextId` outlives a remount of the component. The model keeps it in the state record and has no remount.
- The form's category select and the filter select only offer the listed categories. The model accepts any string for both, as the handlers do.
- src/components/BlogPost.js is not part of this model. It is an unused form component. Its logic is a `useEffect` that copies the `post` prop's title and content into local state, and a non-empty guard before an `onSave` callback that is never supplied.
- src/components/BlogList.js and src/App.js are not part of this model. They hold only rendering and the application shell.
