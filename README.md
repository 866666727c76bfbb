# Endpoint templating of the dashboard's resource services

This project models, in Dafny, how the dashboard's two resource services build the
REST path they poll (`src/app/frontend/common/services/resource/resource.ts`):

- `ResourceService.get` fills in `:name` and then the tenant.
- `NamespacedResourceService.get` fills in `:namespace`, then `:name`, then the tenant.

The model also covers the conversion of the auto-refresh interval that paces the polling.

Each templating step in the source conditionally rewrites the endpoint with one call to
`String.prototype.replace`. The pattern is a plain string, so JavaScript replaces only the
FIRST occurrence. The replacement
string is still scanned for the `$$`, `$&`, `` $` `` and `$'` patterns of ECMA-262's
GetSubstitution operation. The model has three modules:

- `Wrappers` (`wrappers.dfy`): `Option`. An argument left `undefined` is `None`.
- `JsString` (`js_string.dfy`): `FirstIndexOf` is `String.prototype.indexOf` for a string
  pattern. `GetSubstitution` expands the replacement string. `ReplaceFirst` is
  `String.prototype.replace` with a string pattern. The lemmas characterise `ReplaceFirst`:
  where it puts the replacement, what it keeps verbatim, and when it changes nothing.
- `Resource` (`resource.dfy`) has these parts:
  - `CurrentNamespace` is `getNamespace_`.
  - `NameStep`, `NamespaceStep` and `TenantStep` are the three conditional replacements.
  - `ResolveResource` and `ResolveNamespaced` compose those steps in the order each `get`
    uses.
  - `RefreshPeriod` turns the auto-refresh interval in seconds into the timer period in
    milliseconds. An interval of zero gives no period, so the resource is fetched once.

The collaborators' results become parameters:

- `currentTenant` is `TenantService.current()`, the value `getTenant_` returns.
- `currentNamespace` is `NamespaceService.current()`.
- `isMultiNamespace: string -> bool` is `NamespaceService.isMultiNamespace`. It is left
  uninterpreted.
- `seconds` is `GlobalSettingsService.getResourceAutoRefreshTimeInterval()`.

`if (arg)` on a `string | undefined` argument is `Truthy(arg)`: the argument is defined and
not empty.

The precedence is stated twice. Each step is characterised on an arbitrary endpoint in terms
of the first occurrence of its pattern (`NameStepAt`, `NamespaceStepAt`, `TenantStepAt`,
`TenantSegmentDeletedAt` and the `...Unmatched` lemmas). Each step is also checked against
independent reference values on well-formed templates of the shape
`<p>/:tenant<m1>:namespace<m2>:name<q>`. In that shape the literal parts hold no `:`.
`ResolvedTenantSegment` gives the three-tier tenant precedence. `ResolvedName` gives what
`:name` becomes. `NamespaceValue` gives what `:namespace` becomes.

`:name` is a prefix of `:namespace`, and the two services differ here:

- `NamespacedResourceService.get` substitutes the namespace first. The name then lands on the
  real `:name` placeholder (`NamespaceBeforeName`).
- The name step of `ResourceService.get` has no such protection. On a template that holds
  `:namespace` it overwrites the start of that placeholder
  (`NameStepHitsNamespacePlaceholder`).

Three details of the code are worth stating exactly:

- Tier 3 deletes only the first literal `/:tenant`. A `:tenant` that no `/` precedes is left as
  it is (`TenantStepUnmatched`).
- The name step skips an empty name as well as an absent one (`NameStep`).
- In the all-namespaces case `:namespace` becomes a single space, never the empty string
  (`AllNamespacesBecomesBlank`). An ordinary current namespace that is empty is substituted as
  the empty string (`CurrentNamespaceUsed`).

## Model

| member | source | states |
|---|---|---|
| `JsString.FindFrom` | src/app/frontend/common/services/resource/resource.ts:47 | the search behind `replace` finds the first occurrence at or after `from`, or reports that there is none from there on |
| `JsString.FirstIndexOf` | src/app/frontend/common/services/resource/resource.ts:51 | an index is returned exactly when the pattern occurs, and it is the first occurrence |
| `JsString.GetSubstitution` | src/app/frontend/common/services/resource/resource.ts:100 | a replacement string without `$` is inserted exactly as it is |
| `JsString.ReplaceFirstAt` | src/app/frontend/common/services/resource/resource.ts:106 | `replace` rewrites only the first occurrence: the text before and after it is kept verbatim, the occurrence becomes the expanded replacement, and a `$`-free replacement is inserted literally |
| `JsString.ReplaceFirstAbsent` | src/app/frontend/common/services/resource/resource.ts:110 | when the pattern does not occur, `replace` returns the string unchanged |
| `JsString.ReplaceFirstKeepsLaterMatches` | src/app/frontend/common/services/resource/resource.ts:112 | a later, non-overlapping occurrence of the pattern is still an occurrence after the replace, shifted by the change in length |
| `JsString.ReplaceFirst` | src/app/frontend/common/services/resource/resource.ts:47 | `replace` with a string pattern; characterised by `ReplaceFirstAt` (first occurrence rewritten, both sides kept) and `ReplaceFirstAbsent` (no occurrence, no change) |
| `JsString.DollarAmpersandReinsertsMatch` | src/app/frontend/common/services/resource/resource.ts:106 | for every string and pattern with an occurrence, a replacement of `$&` puts the matched text back, so the string is returned unchanged |
| `JsString.EscapedSubstitutionIsLiteral` | src/app/frontend/common/services/resource/resource.ts:106 | doubling every `$` of a value makes GetSubstitution yield exactly that value |
| `JsString.ReplaceFirstEscapedAt` | src/app/frontend/common/services/resource/resource.ts:106 | replacing by an escaped value inserts the value itself at the first occurrence and keeps both sides |
| `Resource.CurrentNamespace` | src/app/frontend/common/services/resource/resource.ts:87-90 | `getNamespace_`; characterised by `AllNamespacesBecomesBlank` (sentinel gives one space) and `CurrentNamespaceUsed` (otherwise the current namespace) |
| `Resource.NameStep` | src/app/frontend/common/services/resource/resource.ts:46-48 | an absent or empty name leaves the endpoint exactly as it was |
| `Resource.NameStepAt` | src/app/frontend/common/services/resource/resource.ts:105-107 | a non-empty name replaces the first `:name` and keeps everything before and after it |
| `Resource.NameStepUnmatched` | src/app/frontend/common/services/resource/resource.ts:47 | an endpoint without `:name` is unchanged by the name step |
| `Resource.NamespaceStep` | src/app/frontend/common/services/resource/resource.ts:99-103 | the namespace step; characterised by `NamespaceStepAt` and `NamespaceStepUnmatched` |
| `Resource.NamespaceStepAt` | src/app/frontend/common/services/resource/resource.ts:99-103 | the first `:namespace` becomes the namespace argument if it is non-empty, otherwise `getNamespace_()`; the rest is kept |
| `Resource.NamespaceStepUnmatched` | src/app/frontend/common/services/resource/resource.ts:102 | an endpoint without `:namespace` is unchanged by the namespace step |
| `Resource.TenantStep` | src/app/frontend/common/services/resource/resource.ts:109-115 | the three-tier tenant step; characterised by `TenantStepAt`, `TenantSegmentDeletedAt` and, against the reference precedence, `TenantStepFillsSegment` |
| `Resource.TenantStepAt` | src/app/frontend/common/services/resource/resource.ts:109-112 | tiers 1 and 2 on any endpoint: the first `:tenant` becomes the non-empty tenant argument, otherwise the non-empty current tenant |
| `Resource.TenantSegmentDeletedAt` | src/app/frontend/common/services/resource/resource.ts:113-114 | tier 3 on any endpoint: the first `/:tenant`, slash included, is deleted and nothing else changes |
| `Resource.TenantStepUnmatched` | src/app/frontend/common/services/resource/resource.ts:50-55 | an endpoint without the pattern its tier looks for (`:tenant`, or `/:tenant` in tier 3) comes back unchanged |
| `Resource.TenantArgumentIgnoresCurrent` | src/app/frontend/common/services/resource/resource.ts:50-51 | with a non-empty tenant argument, the result does not depend on the current tenant |
| `Resource.CurrentTenantActsAsArgument` | src/app/frontend/common/services/resource/resource.ts:52-53 | without a tenant argument, a non-empty current tenant gives the same path as passing it explicitly |
| `Resource.TenantArgumentWins` | src/app/frontend/common/services/resource/resource.ts:109-110 | tier 1: on `<p>/:tenant<q>` a non-empty tenant argument fills the segment, whatever the current tenant is |
| `Resource.CurrentTenantFallback` | src/app/frontend/common/services/resource/resource.ts:111-112 | tier 2: with no or an empty tenant argument, a non-empty current tenant fills the segment |
| `Resource.ShortFormPath` | src/app/frontend/common/services/resource/resource.ts:54-55 | tier 3: with neither, `<p>/:tenant<q>` becomes `<p><q>`, the short-form path |
| `Resource.TenantStepFillsSegment` | src/app/frontend/common/services/resource/resource.ts:50-56 | all three tiers agree with the reference precedence `ResolvedTenantSegment` |
| `Resource.NameFillsPlaceholder` | src/app/frontend/common/services/resource/resource.ts:105-108 | when no `:` before `:name` is followed by `n`, the name step yields `ResolvedName`: the name, or the placeholder left in place |
| `Resource.NamespaceArgumentUsed` | src/app/frontend/common/services/resource/resource.ts:99-100 | a non-empty namespace argument replaces `:namespace` |
| `Resource.AllNamespacesBecomesBlank` | src/app/frontend/common/services/resource/resource.ts:87-90 | without a namespace argument and with the all-namespaces sentinel current, `:namespace` becomes one space, never the sentinel and never empty |
| `Resource.CurrentNamespaceUsed` | src/app/frontend/common/services/resource/resource.ts:101-103 | without a namespace argument, an ordinary current namespace replaces `:namespace` |
| `Resource.NameStepHitsNamespacePlaceholder` | src/app/frontend/common/services/resource/resource.ts:45-48 | the name step of `ResourceService.get` turns `:namespace` into `<name>space`, because `:name` is a prefix of `:namespace` |
| `Resource.NamespaceBeforeName` | src/app/frontend/common/services/resource/resource.ts:99-107 | substituting the namespace before the name makes the name land on the real `:name`, provided the namespace value contains no `:` |
| `Resource.ResolveResource` | src/app/frontend/common/services/resource/resource.ts:45-56 | the path `ResourceService.get` requests; characterised by `ResolveResourceTemplate` |
| `Resource.ResolveNamespaced` | src/app/frontend/common/services/resource/resource.ts:92-115 | the path `NamespacedResourceService.get` requests; characterised by `ResolveNamespacedTemplate` |
| `Resource.ResolveResourceTemplate` | src/app/frontend/common/services/resource/resource.ts:45-56 | `ResourceService.get` turns `<p>/:tenant<m>:name<q>` into `<p>` + tenant segment + `<m>` + name + `<q>`, for any name without `$` (names with `:` such as `system:node` included) |
| `Resource.ResolveNamespacedTemplate` | src/app/frontend/common/services/resource/resource.ts:92-115 | `NamespacedResourceService.get` turns `<p>/:tenant<m1>:namespace<m2>:name<q>` into each placeholder's reference value, with the literal parts kept verbatim, for any name without `$` and a namespace value without `:` or `$` |
| `Resource.DollarNameKeepsPlaceholder` | src/app/frontend/common/services/resource/resource.ts:46-48 | as written, a name of `$&` never reaches the path: the endpoint comes back with its `:name` placeholder |
| `Resource.DollarClusterRoleNameLost` | src/app/frontend/common/services/resource/resource.ts:105-107 | as written, the ClusterRole `$&` on `api/v1/clusterrole/:name` leaves the path as the bare template |
| `Resource.LiteralNameStep` | src/app/frontend/common/services/resource/resource.ts:46-48 | the corrected name step: an absent or empty name leaves the endpoint as it is |
| `Resource.LiteralNameStepAt` | src/app/frontend/common/services/resource/resource.ts:105-107 | the corrected name step puts every non-empty name, `$` included, verbatim in place of the first `:name` |
| `Resource.LiteralNameStepAgrees` | src/app/frontend/common/services/resource/resource.ts:46-48 | for a name without `$` the corrected step gives the same path as the step as written |
| `Resource.RefreshPeriod` | src/app/frontend/common/services/resource/resource.ts:61-62 | an interval of 0 means no repetition (`undefined`); any other interval is a positive whole number of seconds, in milliseconds |
| `Resource.RefreshPeriodRoundTrip` | src/app/frontend/common/services/resource/resource.ts:120-121 | the conversion loses nothing: dividing the period back gives the interval in seconds |
| `Resource.RefreshPeriodInjective` | src/app/frontend/common/services/resource/resource.ts:121 | two different intervals never give the same timer period |

## Left out

- The RxJS pipeline (`onSettingsUpdate`, `switchMap`, `timer`, `switchMapTo`, `publishReplay(1)`, `refCount`, resource.ts:58-68 and 117-127) is left out. It schedules asynchronous events inside a reactive library that is not part of this model. Polling, cancellation, multicast and replay are therefore not modelled.
- `HttpClient`, `http_.get` and `HttpParams` are network I/O. `params` is passed through untouched and is not modelled.
- `ResourceBase`, the Angular dependency injection and the constructors are not part of this model.
- The internals of `TenantService`, `NamespaceService` and `GlobalSettingsService` are left out. Their results are parameters, and `isMultiNamespace` is an uninterpreted predicate.
- `getTenant_` is called twice on lines 52-53 and 111-112. The model reads the current tenant once, because it is a synchronous getter with nothing in between.
- The interval is a natural number of seconds. JavaScript numbers are floats, so fractional or negative intervals are not modelled.
- Strings are sequences of Unicode characters, not UTF-16 code units. All patterns are ASCII and no surrogate pair contains an ASCII unit, so the first occurrence and the resulting string are the same either way.
- The template lemmas (`ResolveResourceTemplate`, `ResolveNamespacedTemplate` and the tier and namespace lemmas on `<p>...<q>`) are stated for well-formed templates: the literal text before each placeholder holds no `:`, and the substituted values hold no `$`. In addition, `NamespaceBeforeName` and `ResolveNamespacedTemplate` need a namespace value without `:`, because such a value could open a new `:name` ahead of the real one. A name may hold `:`, because it goes in after the tenant placeholder and the namespace. The general step lemmas (`NameStepAt`, `NamespaceStepAt`, `TenantStepAt`) cover every endpoint and every value, including `$` patterns.
- `ResolveResource` and `ResolveNamespaced` keep the name step as written (`NameStep`), because they describe the code. The corrected `LiteralNameStep` of the finding below is stated beside them, and `LiteralNameStepAgrees` shows the two give the same path for every name without `$`. Every template lemma assumes such a name.

## Findings

| source | as written | input that shows it | evidently intended | confidence | as-written member | corrected member |
|---|---|---|---|---|---|---|
| src/app/frontend/common/services/resource/resource.ts:47 | the resource name is passed as the replacement string of a string-pattern `replace`, so the `$$`, `$&`, `` $` `` and `$'` patterns in a name are expanded, not inserted | a ClusterRole named `$&` on `api/v1/clusterrole/:name`: the path stays `api/v1/clusterrole/:name` | the name is inserted verbatim; Kubernetes allows `$` in RBAC object names, which need only be valid path segments | medium, not executed; the same call is repeated at resource.ts:106 | `Resource.DollarNameKeepsPlaceholder`, `Resource.DollarClusterRoleNameLost` | `Resource.LiteralNameStep`, `Resource.LiteralNameStepAt` |
