# Tab set selection model

A Dafny model of the tab set component of ng-bootstrap (`NgbTabset` in
`src/tabset/tabset.ts`). A tab set holds an ordered list of tabs and the id
of the active tab. It offers four operations:

- `select(tabId)` switches tabs. It first fires a cancelable `tabChange`
  event, and the event's listener can veto the switch with `preventDefault`.
- the content check (`ngAfterContentChecked`) corrects the active id after
  the tab list has changed.
- the `justify` input setter turns an alignment value into a CSS class.
- a document-wide counter hands out the default tab ids `ngb-tab-<n>`.

Everything is in one module, `Tabset` (`tabset.dfy`):

- Pure specification functions: `GetTabById`, `SelectTransition`,
  `ReconciledActiveId`, `JustifyClass` and `DefaultTabId`. The lemmas about
  the component's behaviour are stated over these functions.
- Class `NgbTabset`: it has the mutable fields `tabs`, `activeId` and
  `justifyClass`. Its methods `Select`, `AfterContentChecked` and
  `SetJustify` update those fields step by step, as the source does. Each
  method is proved equal to its specification function.
- Class `TabIdCounter`: it models the module-level `nextId` counter.
  `NewTab` creates a tab and draws a counter value even when an explicit id
  is bound, because the field initialiser runs before the input is set.

The active id is an `Option<string>`: JavaScript's `null` and `undefined`
are both `None`. The `tabChange` listener is the parameter `veto`. It is a
function from the event payload to `true` when the listener calls
`preventDefault`. `Select` returns the event it fired, if it fired one.

Two behaviours of the code are easy to miss:

- Reconciliation keeps the active id when any tab carries it, and otherwise
  falls back to the first tab. It never looks at `disabled`, so it can make
  a disabled tab active. Only `select` refuses disabled tabs, as the doc
  comment of the `disabled` input (src/tabset/tabset.ts:53-56) says: a
  disabled tab "can't be toggled".
- When several tabs share an id, the first one in list order decides
  whether the tab is disabled.

## Model

| member | source | states |
|---|---|---|
| `Tabset.FilterById` | src/tabset/tabset.ts:208 | The filtered list holds exactly the tabs whose id matches. When it is non-empty, its head is the first matching tab of the list. |
| `Tabset.GetTabById` | src/tabset/tabset.ts:207-210 | The lookup gives null exactly when no tab carries the id. Otherwise it gives a tab at a position where the id first occurs. |
| `Tabset.GetTabByIdIsFirst` | src/tabset/tabset.ts:207-210 | If `i` is the first position carrying the id, the lookup gives `tabs[i]`. |
| `Tabset.SelectTransition` | src/tabset/tabset.ts:187-199 | An event fires if and only if the first tab with that id exists, is enabled, and is not already active. The payload is (old active id, selected id). The new active id is the selected id exactly when an event fired and was not vetoed. Otherwise the active id is unchanged. |
| `Tabset.SelectUnknownIdIsNoop` | src/tabset/tabset.ts:188-189 | Selecting an id that no tab carries fires nothing and leaves the active id unchanged. |
| `Tabset.SelectDisabledIsNoop` | src/tabset/tabset.ts:189 | Selecting the id of a disabled tab (the first with that id) fires nothing and leaves the active id unchanged. |
| `Tabset.SelectActiveIsNoop` | src/tabset/tabset.ts:189 | Selecting the already active id fires nothing and changes nothing. |
| `Tabset.SelectEnabledSwitches` | src/tabset/tabset.ts:189-197 | Selecting an enabled tab that is not active, without a veto, fires exactly one event (old id, new id) and makes that tab active. |
| `Tabset.SelectVetoKeepsActive` | src/tabset/tabset.ts:190-197 | If the listener calls `preventDefault`, the active id afterwards equals the active id before. |
| `Tabset.SelectAssignsOnlyEnabled` | src/tabset/tabset.ts:187-199 | When `select` changes the active id, the new id is the requested one, a tab of the current list carries it, and the first tab carrying it is enabled. |
| `Tabset.SelectTwiceIsOnce` | src/tabset/tabset.ts:187-199 | Unless the first call was vetoed, a second `select` of the same id fires nothing and changes nothing. |
| `Tabset.ReconciledActiveId` | src/tabset/tabset.ts:201-205 | A live active id is kept. Otherwise a non-empty list yields the first tab's id, and an empty list yields none. |
| `Tabset.ReconciledNoneIffEmpty` | src/tabset/tabset.ts:204 | After reconciliation the active id is none exactly when the tab list is empty. |
| `Tabset.ReconciledNamesLiveTab` | src/tabset/tabset.ts:203-204 | After reconciliation the active id, if any, is carried by a tab of the list. |
| `Tabset.ReconcileIdempotent` | src/tabset/tabset.ts:201-205 | Reconciling twice gives the same active id as reconciling once. |
| `Tabset.SelectKeepsReconciled` | src/tabset/tabset.ts:187-205 | If the active id is reconciled, it is still reconciled after any `select`. |
| `Tabset.JustifyClass` | src/tabset/tabset.ts:146-152 | The class ends with the alignment value. `JustifyRoundTrip` and `JustifyClassInjective` state the rest of the mapping. |
| `Tabset.JustifyRoundTrip` | src/tabset/tabset.ts:146-152 | Every alignment value can be read back from its class. The reader accepts only `nav-fill`, `nav-justified`, and `justify-content-<v>` for any other `v`, so `fill` and `justified` get the `nav-` prefix and every other value gets `justify-content-`. |
| `Tabset.JustifyClassInjective` | src/tabset/tabset.ts:146-152 | Distinct alignment values give distinct classes. |
| `Tabset.NatToDecimal` | src/tabset/tabset.ts:44 | The decimal rendering of a counter value is a non-empty string of digits. It has two or more digits exactly when the value is at least 10. It starts with `0` only for the value 0, so there are no leading zeros. |
| `Tabset.DefaultTabId` | src/tabset/tabset.ts:44 | A default id is `ngb-tab-` followed by decimal digits only. `DefaultTabIdRoundTrip` and `DefaultTabIdInjective` state that the digits determine the counter value. |
| `Tabset.DecimalRoundTrip` | src/tabset/tabset.ts:44 | Reading the decimal rendering of a counter value gives the value back. |
| `Tabset.DefaultTabIdRoundTrip` | src/tabset/tabset.ts:44 | The counter value can be recovered from the default id `ngb-tab-<n>`. |
| `Tabset.DefaultTabIdInjective` | src/tabset/tabset.ts:44 | Distinct counter values give distinct default ids. |
| `Tabset.TabIdCounter.constructor` | src/tabset/tabset.ts:14 | The counter starts at 0, within its reachable range of at most 2^53. |
| `Tabset.TabIdCounter.NewTab` | src/tabset/tabset.ts:14-56 | Creating a tab advances the counter by one while it is below 2^53. At 2^53 the counter stays put, as `nextId++` does on a JavaScript number. Without an explicit id, the tab's id is `ngb-tab-<old counter>`, which differs from the default id of every smaller counter value. The tab is disabled as requested. |
| `Tabset.NgbTabset.constructor` | src/tabset/tabset.ts:175-179 | A new tab set has no tabs, no active id, and the class of the configured `justify` value. |
| `Tabset.NgbTabset.SetJustify` | src/tabset/tabset.ts:146-152 | Sets `justifyClass` to the class of the value and changes no other field. |
| `Tabset.NgbTabset.Select` | src/tabset/tabset.ts:187-199 | The fired event and the new active id are those of `SelectTransition` on the old state. The tab list and the justify class do not change. |
| `Tabset.NgbTabset.AfterContentChecked` | src/tabset/tabset.ts:201-205 | The new active id is `ReconciledActiveId` of the old one. No other field changes. |

## Left out

- Template rendering, CSS class strings in the template, aria and tabindex bindings, and `destroyOnHide` panel mounting (src/tabset/tabset.ts:100-123). The framework's template engine does these.
- `NgbTab.ngAfterContentChecked` and the `@ContentChildren` / `QueryList` content projection. `tabs` is a plain sequence that the caller assigns, and a tab is reduced to its id and its `disabled` flag.
- The `title`, `orientation`, `type` and `destroyOnHide` inputs are presentation only.
- `EventEmitter` subscriptions. Several listeners are modelled as one combined veto decision, and a listener that calls `select` again from inside the event is not modelled.
- `NgbTabsetConfig`: the config file is not part of this model. The constructor takes the configured `justify` value as a parameter and sets no other defaults.
- TabIdCounter.NewTab: a new default id is fresh only while the counter is below 2^53. Once the counter has stalled at 2^53, every later default id is `ngb-tab-9007199254740992`, the same as the first id issued at that value.
- The `NgbTabChangeEvent.activeId` field is typed `string` in the source, but it can be null or undefined before any tab is active. The model types it as `Option<string>`.
