# Shuttle front-end: route search, route form and sign-in rules

A Dafny model of the client-side logic of a campus shuttle booking front-end
(Next.js pages). Everything else in the pages is calls to a remote REST
backend and markup. What this project models:

- **Route search** (`app/routes/page.tsx`). An empty query gives nothing.
  Otherwise the page keeps the routes with a stop that contains the query,
  compared after lower-casing both. It then sorts them in place by demand
  level (High 3, Medium 2, Low 1) descending, then by active shuttles
  descending. The sort is stable.
  - Module `RouteSearch`.
  - The filter is a function (`FilterMatching`).
  - The sort is an insertion sort over an `array<Route>` (`SortInPlace`), proved equal to the specification function `StableSort`.
  - `Search` is the whole operation as a function, and `SearchRoutes` is the method that filters and then sorts a fresh array.
  - The input list is a value, so the search cannot change it.
- **Home page rules** (`app/page.tsx`), module `Home`.
  - The add-route form: stops and peak hours are split on commas and each piece is trimmed. Name and demand level are only trimmed.
  - Logout removes two keys from the session store.
  - Delete and book-ride act only when there is a route id, and book-ride also needs a stored email.
  - The administrator view is chosen by an exact match on the name "admin".
- **Sign-in page** (`app/login/page.tsx`), module `Auth`: the required-field
  check, the choice of register or login call and body, the message shown,
  and the session writes after a successful login.
- **Session store** (`localStorage`), module `Session`: a class holding a
  `map<string, string>` that `setItem`/`removeItem` update in place.
- **Text primitives**, module `Text`:
  - `toLowerCase` (ASCII letters) and `includes`.
  - `trim`, with ECMAScript's full set of whitespace and line-terminator code points.
  - `split(",")` with its inverse, join.

JavaScript truthiness of a string that may be absent (`!x`) is modelled by
`Session.Truthy`: present and non-empty. A reply field that is absent, and so
`undefined`, is stored by `setItem` as the text "undefined"
(`Session.StoredText`).

## Model

| member | source | states |
|---|---|---|
| `Text.ContainsAt` | app/routes/page.tsx:62 | `includes` holds exactly when the query occurs at some position of the stop |
| `Text.Trim` | app/page.tsx:61-64 | `trim` gives the slice of its input that neither starts nor ends with whitespace; everything cut off on either side is whitespace |
| `Text.TrimIdempotent` | app/page.tsx:62 | trimming a trimmed string changes nothing |
| `Text.TrimKeepsOnly` | app/page.tsx:62 | trimming never introduces a character that was not in the input |
| `Text.SplitOnComma` | app/page.tsx:62 | `split(",")` gives one more piece than there are commas, and no piece holds a comma |
| `Text.JoinSplit` | app/page.tsx:62 | joining the pieces with commas gives back the input, so splitting loses nothing |
| `Text.SplitJoin` | app/page.tsx:62 | comma-free pieces joined with commas split back into the same pieces |
| `RouteSearch.Rank` | app/routes/page.tsx:66 | the demand ranks are 1 to 3 |
| `RouteSearch.CompareMeaning` | app/routes/page.tsx:65-68 | the comparator puts `a` first exactly when `a` has higher demand, or equal demand and more shuttles; it ties exactly when both keys are equal; swapping its arguments flips its sign |
| `RouteSearch.CompareTransitive` | app/routes/page.tsx:66-67 | the comparator's order is transitive, so the sort has a consistent order to produce |
| `RouteSearch.FilterMatchingCount` | app/routes/page.tsx:61-63 | the filter keeps each matching route as often as it occurs in the input, and drops every non-matching one |
| `RouteSearch.FilterMatchingMembers` | app/routes/page.tsx:61-63 | a route is in the filtered list iff it is in the input and has a stop containing the query, ignoring case |
| `RouteSearch.InsertLastPermutes` | app/routes/page.tsx:65 | one insertion step adds the route and loses nothing |
| `RouteSearch.InsertLastAt` | app/routes/page.tsx:65 | insertion places the new route right after the last route that does not belong after it |
| `RouteSearch.InsertLastSorted` | app/routes/page.tsx:65-68 | inserting into a sorted list keeps it sorted |
| `RouteSearch.InsertLastStable` | app/routes/page.tsx:65 | the inserted route lands behind every route of the same key |
| `RouteSearch.StableSortPermutes` | app/routes/page.tsx:65 | the sort's output is a permutation of its input |
| `RouteSearch.StableSortSorted` | app/routes/page.tsx:65-68 | the sort's output is ordered by the comparator |
| `RouteSearch.StableSortStable` | app/routes/page.tsx:65 | for every key, the routes with that key keep their input order |
| `RouteSearch.SortedUnique` | app/routes/page.tsx:65-68 | two sorted lists that hold the same routes under every key, in the same order, are equal |
| `RouteSearch.StableSortUnique` | app/routes/page.tsx:65-68 | any sorted order that keeps each key's routes in input order is exactly `StableSort`, so every stable sort gives this order |
| `RouteSearch.FilterWithKey` | app/routes/page.tsx:61-65 | filtering by the query and selecting one key commute |
| `RouteSearch.FilterAllMatching` | app/routes/page.tsx:61-63 | filtering a list whose routes all match returns it unchanged |
| `RouteSearch.StableSortOfSorted` | app/routes/page.tsx:65-68 | sorting an already sorted list returns it unchanged |
| `RouteSearch.Search` | app/routes/page.tsx:55-58 | an empty query yields an empty result, whatever the routes |
| `RouteSearch.SearchPermutes` | app/routes/page.tsx:61-65 | the result is a permutation of the filtered routes: nothing added, dropped or duplicated |
| `RouteSearch.SearchMembers` | app/routes/page.tsx:56-63 | soundness and completeness: a route is in the result iff the query is non-empty and the route is an input route with a matching stop, as many times as in the input |
| `RouteSearch.SearchOrdered` | app/routes/page.tsx:66-67 | a higher-demand route always precedes a lower-demand one; within one demand level shuttle counts never increase |
| `RouteSearch.SearchStable` | app/routes/page.tsx:61-67 | for every key, the result lists exactly the matching input routes with that key, in input order |
| `RouteSearch.SearchIdempotent` | app/routes/page.tsx:55-70 | searching the result again with the same query returns it unchanged |
| `RouteSearch.GateScenario` | app/routes/page.tsx:55-70 | "Gate1" over a low-demand and a high-demand route returns the high-demand one first |
| `RouteSearch.LibScenario` | app/routes/page.tsx:61-63 | the lower-case query "lib" finds the stop "Lib" and no route without it |
| `RouteSearch.InsertInPlace` | app/routes/page.tsx:65 | one pass of the in-place insertion sort leaves `a[..i+1]` equal to the insertion of `a[i]` into the old prefix and leaves the rest untouched |
| `RouteSearch.SortInPlace` | app/routes/page.tsx:65-68 | the in-place sort leaves the array equal to `StableSort` of its old contents |
| `RouteSearch.SearchRoutes` | app/routes/page.tsx:55-71 | the search method returns `Search`'s list, which holds exactly the matching input routes and is sorted |
| `Session.SessionStore.GetItem` | app/page.tsx:96 | `getItem` gives the stored value, or nothing for a missing key |
| `Session.SessionStore.SetItem` | app/login/page.tsx:39-40 | `setItem` sets one key and leaves every other key as it was |
| `Session.SessionStore.RemoveItem` | app/page.tsx:88-89 | `removeItem` drops one key and leaves every other key as it was |
| `Home.SplitAndTrim` | app/page.tsx:62-63 | the processed list has one entry per comma plus one; entry i is the i-th comma-separated piece trimmed; no entry holds a comma or starts or ends with whitespace |
| `Home.SplitAndTrimBlank` | app/page.tsx:62 | an empty or all-whitespace field gives a single empty entry |
| `Home.ProcessForm` | app/page.tsx:59-66 | stops and peak hours are normalised by the same split-and-trim rule; name and demand level are trimmed only |
| `Home.TrimKeepsCommas` | app/page.tsx:61 | trimming keeps every comma of its input |
| `Home.Logout` | app/page.tsx:87-91 | logout removes the `userName` and `email` keys and leaves every other key unchanged |
| `Home.DeleteRequest` | app/page.tsx:77-85 | a delete request is made iff the id is truthy, and it names that id |
| `Home.BookRideStep` | app/page.tsx:93-101 | no id: nothing happens; id but no truthy stored email: only the log-in alert; otherwise a booking request with the stored email and the id |
| `Home.BookingResult` | app/page.tsx:101-106 | a booking reports its fare after the text app/page.tsx:102 holds ("â‚¹", where the rupee sign was meant) and shows the new balance; a failure shows the backend's detail, or "Error booking ride." when there is none |
| `Home.CurrentUser` | app/page.tsx:26-30 | the page's user name is the stored name when it is truthy, otherwise none |
| `Home.PageView` | app/page.tsx:138-170 | the management title, the add form and delete buttons appear iff the user name is exactly "admin"; otherwise the booking title and book buttons appear |
| `Auth.LoginIgnoresName` | app/login/page.tsx:17 | in login mode only email and password are required; the name plays no part |
| `Auth.RequestFor` | app/login/page.tsx:22-23 | register posts email, name and password to `/api/register`; login posts email and password, and no name, to `/api/login` |
| `Auth.ReplyMessage` | app/login/page.tsx:34-45 | an ok reply shows its message; a failed reply shows its detail, or "An error occurred." when that is absent |
| `Auth.HandleAuth` | app/login/page.tsx:16-45 | a missing field gives the fill-in message and no request; otherwise the mode's request is sent and the reply's message shown; a successful login writes `userName` and `email` and moves to the home page; every other outcome leaves the session store unchanged |

## Left out

- HTTP calls (`axios`, `fetch`), backend hosts and JSON encoding and decoding. The backend is not part of this model. Its replies are inputs: `Auth.HandleAuth`'s `reply` and `Home.BookingResult`'s argument.
- Network failures in `handleAuth`. The page does not catch them, and the model has no exception path for them.
- React state and hooks, `router.push` navigation (only its condition is modelled, in `Auth.HandleAuth`'s `goHome`), JSX rendering and styles, and `console` output. Alerts are modelled only as the text they show (`Home.LoginAlert`, `Home.BookRideStep`, `Home.BookingResult`, `Auth.HandleAuth`'s `message`), not as dialogs.
- The wallet page (its recharge check rests on `parseFloat` and floating-point comparison) and the bookings page (display only).
- Home.ProcessForm: does not model `Number(active_shuttles)`, JavaScript's numeric coercion with its NaN cases; the shuttle count is kept as the text the form held.
- RouteSearch.Compare: demand levels other than High, Medium and Low are excluded by the `Demand` type. In the source (app/routes/page.tsx:67) such a level has no entry in `demandOrder`, so the rank difference is NaN. NaN is falsy, so `||` falls through to the shuttle difference, and any pair involving such a route is compared by shuttle count alone. The comparator is then inconsistent: with a = (High, 1 shuttle), b = (unknown level, 2) and c = (Low, 3), a sorts before c by rank, c before b by shuttles and b before a by shuttles. The resulting order depends on the engine's sort algorithm.
- RouteSearch.Route: `active_shuttles` is an unbounded integer, not a floating-point number.
- Auth.AuthReply: a JSON `null` in the reply's `name` or `email` is not distinguished from an absent field. `setItem` would store "null" for it (app/login/page.tsx:39-40), where the model stores "undefined".
- Text.Lower: lowers only the ASCII letters A-Z. JavaScript's `toLowerCase` also lowers other Unicode letters, some of them into two characters.
- Text.ContainsAt: works on Dafny characters (Unicode scalar values), not on JavaScript's UTF-16 code units.
- The routes page's own `bookRide` (app/routes/page.tsx:73-86) has the same guards as `Home.BookRideStep`. Its reply handling (an alert of the reply's `message`) is not modelled.
- `fetchWalletBalance`'s guard (no request without a stored email) and the balance display are not modelled.
- Home.PageView: models only the title, the add-route form and the card button, not the other markup.
