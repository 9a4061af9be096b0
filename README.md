# Delegation requests of the DNP delegation add-in

A model of the request lifecycle at the centre of the add-in's single React component
(`src/taskpane/components/App.jsx`). It covers:

- the catalogue of request statuses (`STATUS_OPTIONS`);
- the catalogue of deliberative instances (`INITIAL_INSTANCES`) and its two filters: the
  delegable instances the form offers, and the `all` / `delegable` / `indelegable` view of
  the Instances page;
- the request form: its field rules (react-hook-form `required`, `minLength`, `validate`),
  the expiry guard of its submit handler, `parseInt` of the instance id, and the audit
  trail (`trazabilidad`) a submission carries;
- the application state as a class (`RequestStore.Store`) whose list of requests is changed
  by the add, update and delete handlers;
- the Requests page: the case-insensitive search and the descending sort by date or by
  status, the sort as an in-place insertion sort over an array;
- the Dashboard's five counters and its bottleneck-risk estimate.

Dates are instants on one integer time line (`new Date(...)` of an ISO date and
`Date.now()` both become integers); an empty date input is `None`. Strings are `seq<char>`.
Where the clock is read, the reading is a parameter (`now`, `stamp`, `date`).

Modules: `Basics` (options, `Array.prototype.filter` as a recursive function, and
subsequences), `Text` (case mapping, `includes`, string `>`, `String(n)`, `parseInt`),
`StatusCatalog`, `InstanceRegistry`, `Delegation` (the request record, merge, replace and
remove by id), `RequestForm`, `RequestStore`, `RequestQuery`, `Dashboard`.

Four behaviours of the code worth knowing:

- The text fields are not trimmed. `minLength` counts the raw value, so three spaces pass
  the delegate rule.
- The status sort compares the raw status strings with JavaScript's `>`, not the
  catalogue's priorities. `StatusCatalog.StatusStringOrder` shows that the two orders differ.
- An instance id that `parseInt` cannot read becomes `NaN` (`None` here) without any error.
  The `required` rule only rejects the empty placeholder.
- A request's status never leaves `solicitada`. The form registers no status field, and
  when editing, its default values are the edited record itself, so the submitted status
  is always the record's own (`RequestForm.OpenedOn`). New records are created
  `solicitada`, so every stored request, and every entry of its trail, stays `solicitada`,
  and the Dashboard's approved count stays 0.

## Model

| member | source | states |
|---|---|---|
| StatusCatalog.CatalogueCoversStatuses | src/taskpane/components/App.jsx:56-63 | The catalogue has six entries, one per status, and the position of each status maps back to that status. |
| StatusCatalog.PriorityIsRanking | src/taskpane/components/App.jsx:56-63 | Priorities run from 0 (`rechazado`) to 5 (`publicado`), and no two statuses share a priority. |
| StatusCatalog.ValueInjective | src/taskpane/components/App.jsx:56-63 | Distinct statuses have distinct `value` strings. |
| StatusCatalog.FindByValue | src/taskpane/components/App.jsx:496-497 | `Array.prototype.find` returns the first entry with the value, and returns nothing exactly when no entry has it. |
| StatusCatalog.FindStatusEntry | src/taskpane/components/App.jsx:496-497 | Looking up a status's value finds that status's catalogue entry; an unknown value finds nothing, so no colour or label is shown. |
| StatusCatalog.StatusStringOrder | src/taskpane/components/App.jsx:462-465 | Under string `>` the statuses sort as solicitada, rechazado, publicado, firmado, enElaboracion, autorizadaDG, which is not the priority order. |
| InstanceRegistry.InitialCatalogue | src/taskpane/components/App.jsx:25-54 | The seed catalogue holds two active instances with distinct ids; only instance 2 is delegable. |
| InstanceRegistry.DelegableInstancesSpec | src/taskpane/components/App.jsx:523 | The form's instance list (`DelegableInstances`) holds exactly the `DELEGABLE` instances, in catalogue order, each as often as the catalogue holds it. |
| InstanceRegistry.FilterChoices | src/taskpane/components/App.jsx:413-416 | Of the Instances page's filter (`FilterInstances`): `all` shows every instance; `delegable` and `indelegable` upper-case to the stored tags and show those instances. |
| InstanceRegistry.FilterViewsPartition | src/taskpane/components/App.jsx:413-416 | When every instance is tagged `DELEGABLE` or `INDELEGABLE`, the two filtered views together count every instance exactly once. |
| Text.ToLowerIdempotent | src/taskpane/components/App.jsx:461 | Lower-casing twice equals lower-casing once, and the result has no upper-case letters. |
| Text.ToLowerOfToUpper | src/taskpane/components/App.jsx:415 | Upper-casing and then lower-casing gives the same string as lower-casing alone. |
| Text.IncludesIffOccurs | src/taskpane/components/App.jsx:461 | `includes` holds exactly when the term occurs at some index of the string. |
| Text.GreaterTransitive | src/taskpane/components/App.jsx:465 | String `>` is transitive. |
| Text.GreaterTotal | src/taskpane/components/App.jsx:465 | Of two different strings, one is `>` the other. |
| Text.ParseDecimal | src/taskpane/components/App.jsx:258 | `parseInt(String(n), 10)` (`ParseInt` of `Decimal`) gives back `n`, so an option value rendered from an instance id parses back to that id. |
| Text.DecimalInjective | src/taskpane/components/App.jsx:277 | Different ids render as different option values. |
| Delegation.RequestIdInjective | src/taskpane/components/App.jsx:533 | Ids `req-<clock>` made at different clock readings differ. |
| Delegation.MergeSpec | src/taskpane/components/App.jsx:548 | The edit's merge `{...editingRequest, ...data}` (`Merge`) keeps the record's id, creation date and requester. It takes the submitted trail, and takes the submitted status when one was submitted (otherwise the status is kept). |
| Delegation.ReplaceById | src/taskpane/components/App.jsx:550 | The update's `map` keeps the list length; each position with the id holds the merged record, and every other position is unchanged. |
| Delegation.ReplaceKeepsIds | src/taskpane/components/App.jsx:550 | Replacing with a record of the same id keeps the list of ids, and so keeps ids distinct. With distinct ids it changes exactly one position. |
| Delegation.ReplaceAbsent | src/taskpane/components/App.jsx:550 | An update whose id is not in the list changes nothing. |
| Delegation.RemoveSpec | src/taskpane/components/App.jsx:558 | The delete's `filter` (`RemoveById`) leaves no request with the id and keeps every other request with its full multiplicity, in order. The list shrinks by the number of records with the id. |
| Delegation.UpdateAfterRemove | src/taskpane/components/App.jsx:550-558 | An update after deleting its id finds nothing to change. |
| Delegation.RemoveKeepsDistinct | src/taskpane/components/App.jsx:558 | The delete keeps distinct ids distinct. |
| Delegation.AddKeepsDistinct | src/taskpane/components/App.jsx:536 | Appending a request whose id is new keeps ids distinct. |
| Delegation.RemoveUndoesAdd | src/taskpane/components/App.jsx:532-558 | Deleting the id of a request just appended under a fresh id gives back the list as it was. |
| Delegation.AddKeepsRequested | src/taskpane/components/App.jsx:534-536 | Appending a record created `solicitada` from a trail of `solicitada` entries keeps every request `solicitada`. |
| Delegation.ReplaceKeepsRequested | src/taskpane/components/App.jsx:550 | Replacing records by a `solicitada` record keeps every request `solicitada`. |
| Delegation.RemoveKeepsRequested | src/taskpane/components/App.jsx:558 | Deleting keeps every request `solicitada`. |
| RequestForm.Validate | src/taskpane/components/App.jsx:272-335 | The form shows no error exactly when every field rule holds, and at most six errors, one per field. |
| RequestForm.FailingMessagesOnce | src/taskpane/components/App.jsx:272-335 | Keeping the messages of the failing rules, in field order, keeps each failing message exactly once and nothing else. |
| RequestForm.ValidateMessage | src/taskpane/components/App.jsx:272-335 | A single message appears exactly when its rule fails, and then exactly once. |
| RequestForm.ValidateMessages | src/taskpane/components/App.jsx:272-335 | For every message: it appears exactly when its rule fails, and then once. The required messages appear exactly for an empty field, the too-short messages for a value that is present but shorter than 3 (delegate) or 10 (justification) characters, and `Fecha inválida` when the expiry rule fails. |
| RequestForm.FieldRulesExclusive | src/taskpane/components/App.jsx:287-335 | A field's `required` and `minLength` rules never fail together, since the length rule only looks at a non-empty value. |
| RequestForm.OneMessagePerField | src/taskpane/components/App.jsx:287-335 | The delegate and the justification never show both their required and their length message, as react-hook-form shows one error per field. |
| RequestForm.SingleFailure | src/taskpane/components/App.jsx:272-335 | When exactly one rule fails, its message is the only error shown. |
| RequestForm.Submit | src/taskpane/components/App.jsx:251-262 | A form is submitted exactly when every rule holds. A rejected form reports its validation errors. A submission carries `parseInt` of the instance id, the extended trail and the form's status. |
| RequestForm.ExpiryGuardUnreachable | src/taskpane/components/App.jsx:252-255 | The handler's expiry-before-designation guard never fires, because the expiry field rule has already rejected such forms. |
| RequestForm.ExpiryBeforeDesignationRejected | src/taskpane/components/App.jsx:310 | An expiry earlier than the designation date is never submitted; the form reports `Fecha inválida`. |
| RequestForm.TraceGrowsByOne | src/taskpane/components/App.jsx:260 | Of the trail a submission carries (`NextTrace`): a new request's trail is one `solicitada` entry. An edit keeps the old trail and appends one entry with the submitted status, or `solicitada` when none was submitted. |
| RequestForm.SubmittedStatusIsInitial | src/taskpane/components/App.jsx:235-260 | A form opened with the edited record as its default values (`OpenedOn`) submits that record's own status, and its new trail entry records that status; a new form submits no status. |
| RequestForm.NextTraceStaysRequested | src/taskpane/components/App.jsx:260 | A form opened on a `solicitada` request, or on none, builds a trail that is all `solicitada`. |
| RequestForm.SubmissionStaysRequested | src/taskpane/components/App.jsx:235-260 | Such a form submits an all-`solicitada` trail, and the edited record stays `solicitada` after the merge. |
| RequestForm.SubmittedInstanceIsDelegable | src/taskpane/components/App.jsx:270-278 | A submission made through the selects names a delegable instance of the catalogue, and its urgency is `Normal` or `Alta`. |
| RequestForm.ExampleSubmission | src/taskpane/components/App.jsx:251-264 | A well-formed new request is submitted with one `solicitada` entry. |
| RequestForm.ExampleShortDelegate | src/taskpane/components/App.jsx:287-296 | A two-letter delegate, all else valid, shows only `Mínimo 3 caracteres`. |
| RequestStore.Store.constructor | src/taskpane/components/App.jsx:513-521 | The application starts with the seed catalogue, no requests and the signed-in user. |
| RequestStore.Store.AddRequest | src/taskpane/components/App.jsx:532-540 | The new record (`Created`: id from the clock, status `solicitada`, requester the current user) is appended; every earlier record is unchanged. |
| RequestStore.Store.UpdateRequest | src/taskpane/components/App.jsx:547-555 | The merged record replaces every record with the edited id; the length and the ids are unchanged. |
| RequestStore.Store.DeleteRequest | src/taskpane/components/App.jsx:557-560 | Every record with the id is removed and no other record changes; an all-`solicitada` list stays so. |
| RequestStore.Store.SubmitNew | src/taskpane/components/App.jsx:251-264 | A rejected new-request form leaves the list alone; an accepted one appends exactly one record. An all-`solicitada` list stays so. |
| RequestStore.Store.SubmitEdit | src/taskpane/components/App.jsx:235-264 | A rejected edit leaves the list alone; an accepted one replaces the edited record by id. When the form was opened on a stored record of an all-`solicitada` list, the list stays all `solicitada`. |
| RequestStore.CreateThenDelete | src/taskpane/components/App.jsx:532-560 | Creating a request under an id no stored request has, then deleting it, leaves the store as it was. |
| RequestStore.EditOnlyRequest | src/taskpane/components/App.jsx:547-555 | Editing the only request keeps its id and position and grows its trail by one entry. |
| RequestQuery.SearchedSpec | src/taskpane/components/App.jsx:460-461 | The search (`Searched`) keeps exactly the requests whose delegate matches, each as often as it occurs; an empty term keeps everything. |
| RequestQuery.EmptyTermKeepsAll | src/taskpane/components/App.jsx:461 | Skipping the filter for an empty term changes nothing: filtering by the empty term would keep every request. |
| RequestQuery.SearchIgnoresCase | src/taskpane/components/App.jsx:461 | The search gives the same result for the term in upper case, in lower case or as typed. |
| RequestQuery.BeforeIsStrictWeakOrder | src/taskpane/components/App.jsx:462-465 | The comparator's "a before b" is irreflexive and asymmetric, and its "not before" is transitive, for both keys. |
| RequestQuery.SortDescending | src/taskpane/components/App.jsx:462-466 | The sort leaves no request followed by one with a greater key, and the array is a permutation of its input. |
| RequestQuery.ListRequests | src/taskpane/components/App.jsx:459-468 | The list holds exactly the searched requests, as a multiset, sorted descending; a request appears exactly when it is in the store and matches. |
| Dashboard.ComputeStats | src/taskpane/components/App.jsx:368-374 | The total is the list's length. Pending plus approved never exceed it, nor do overdue; active instances never exceed the catalogue. |
| Dashboard.NothingApprovedWhileRequested | src/taskpane/components/App.jsx:370-371 | While every request is `solicitada`, all count as pending and none as approved. |
| Dashboard.OverdueMonotone | src/taskpane/components/App.jsx:373 | As time passes the overdue count never falls. |
| Dashboard.StatsAfterAdd | src/taskpane/components/App.jsx:532-536 | An add raises the total and the pending count by one. Approved and active stay; overdue rises exactly when the new request is already overdue. |
| Dashboard.StatsAfterDelete | src/taskpane/components/App.jsx:557-558 | A delete lowers the total by the number of requests with the id. |
| Dashboard.BottleneckRisk | src/taskpane/components/App.jsx:376-379 | The risk is `Alto` exactly when twice the urgent count exceeds the total; an empty list is `Bajo`. |
| Dashboard.UrgencyRatio | src/taskpane/components/App.jsx:377 | The urgent share lies between 0 and 1, and is 0 for an empty list. |
| Dashboard.RatioAtMostOne | src/taskpane/components/App.jsx:377 | A count no larger than a positive total gives a ratio between 0 and 1. |
| Dashboard.RatioAboveHalf | src/taskpane/components/App.jsx:377-378 | For a positive total, the urgent ratio exceeds one half exactly when twice the urgent count exceeds the total. |
| Dashboard.SixOfTenIsHighRisk | src/taskpane/components/App.jsx:376-379 | Six urgent requests out of ten are high risk. |

## Left out

- `simulateApi`'s delay and loading flag: it always succeeds, so each handler's success branch is modelled directly.
- Toasts, the sheet and editing-request UI state, navigation, the theme, the sidebar and logout: they are presentation only.
- `handleExportData` and the Power BI and settings pages: these are I/O and views outside the request lifecycle.
- The optional document upload: it reads a browser file input that cannot be seen here.
- Date parsing and ISO formatting: dates are integers on one time line, and an invalid `Date` is modelled only as the empty field it comes from.
- Text.ToLower: maps only ASCII and Latin-1 letters, not full Unicode case mapping.
- Text.ToUpper: maps only ASCII and Latin-1 letters, not full Unicode case mapping (no `ß` to `SS`).
- Text.ToLowerOfToUpper: holds for this Latin-1 mapping but not for JavaScript's full case mapping: `"ß".toUpperCase()` is `"SS"`, which lower-cases to `"ss"`, and `µ` upper-cases to `Μ`, which lower-cases to `μ`.
- RequestQuery.SearchIgnoresCase: rests on `Text.ToLowerOfToUpper`, so with JavaScript's full case mapping a term holding `ß` or `µ` can match differently once upper-cased.
- Text.Decimal: renders every integer in plain digits; JavaScript's `String` of a number of 1e21 or more gives exponent form (`"1e+21"`). The instance ids (1, 2) and `Date.now()` readings (about 1.7e12) are far below.
- Text.ParseInt: reads integers exactly; JavaScript numbers are doubles, exact only up to 2^53. The ids and clock readings parsed here are far below that.
- Text.Greater: compares characters by code point; JavaScript compares UTF-16 code units, which differs only for characters outside the Basic Multilingual Plane.
- RequestForm.Validate: the length rules count characters, not UTF-16 code units.
- Dashboard.BottleneckRisk: the ratio is an exact real rather than a 64-bit float; the two agree for lists shorter than 2^53.
- RequestQuery.SortDescending: the order of equal keys is whatever this insertion sort gives. The source's comparator never answers 0, so the engine's order for ties is unspecified, and only the descending order and the permutation are stated.
- Instance editing: the Instances page's edit button only logs the instance, and `setInstances` is never called, so `instances` is a constant of the store.
