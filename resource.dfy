/**
 * Endpoint templating of `ResourceService.get` and
 * `NamespacedResourceService.get` (src/app/frontend/common/services/resource/resource.ts),
 * and the conversion of the auto-refresh interval that paces the polling.
 *
 * What the collaborators report becomes a parameter:
 *  - `currentTenant` is `TenantService.current()` (read by `getTenant_`);
 *  - `currentNamespace` is `NamespaceService.current()` and
 *    `isMultiNamespace` its `isMultiNamespace` test (read by `getNamespace_`);
 *  - `seconds` is `GlobalSettingsService.getResourceAutoRefreshTimeInterval()`.
 * An optional argument (`name?`, `namespace?`, `tenant?`) is an `Option`,
 * and `if (arg)` is `Truthy(arg)`: defined and not the empty string.
 */
module Resource {
  import opened Wrappers
  import opened JsString

  const NamePlaceholder: string := ":name"
  const NamespacePlaceholder: string := ":namespace"
  const TenantPlaceholder: string := ":tenant"
  /** Deleted when there is no tenant, leaving the tenant-less short-form path. */
  const TenantSegment: string := "/:tenant"
  /** What `getNamespace_` yields in place of the all-namespaces sentinel. */
  const AllNamespacesStandIn: string := " "

  /** JavaScript truthiness of a `string | undefined` argument. */
  predicate Truthy(v: Option<string>) {
    v.Some? && v.value != ""
  }

  /** A value that is substituted literally and opens no new placeholder. */
  predicate PlainValue(v: string) {
    ':' !in v && '$' !in v
  }

  /** The tenant used in tiers 1 and 2 is substituted literally. */
  predicate LiteralTenant(tenant: Option<string>, currentTenant: string) {
    if Truthy(tenant) then '$' !in tenant.value else '$' !in currentTenant
  }

  /** `getNamespace_`: the current namespace, or `" "` for the all-namespaces sentinel. */
  function CurrentNamespace(currentNamespace: string, isMultiNamespace: string -> bool): string {
    if isMultiNamespace(currentNamespace) then AllNamespacesStandIn else currentNamespace
  }

  // ---------------------------------------------------------------------------
  // The three templating steps. Each one conditionally rewrites the endpoint
  // by a single string-pattern replace.
  // ---------------------------------------------------------------------------

  /**
   * A non-empty name replaces the first `:name`; an absent or empty one
   * leaves the endpoint as it is.
   */
  function NameStep(endpoint: string, name: Option<string>): (r: string)
    ensures !Truthy(name) ==> r == endpoint
  {
    if Truthy(name) then ReplaceFirst(endpoint, NamePlaceholder, name.value) else endpoint
  }

  /** The value `NamespacedResourceService.get` puts in place of `:namespace`. */
  function NamespaceValue(namespace: Option<string>, currentNamespace: string, isMultiNamespace: string -> bool): string {
    if Truthy(namespace) then namespace.value else CurrentNamespace(currentNamespace, isMultiNamespace)
  }

  /**
   * The first `:namespace` is always replaced: by the namespace argument when
   * it is non-empty, otherwise by what `getNamespace_` yields.
   */
  function NamespaceStep(endpoint: string, namespace: Option<string>, currentNamespace: string,
                         isMultiNamespace: string -> bool): string {
    ReplaceFirst(endpoint, NamespacePlaceholder, NamespaceValue(namespace, currentNamespace, isMultiNamespace))
  }

  /**
   * The tenant precedence: a non-empty tenant argument replaces the first
   * `:tenant`; failing that, a non-empty current tenant does; failing both,
   * the first `/:tenant` is deleted, giving the tenant-less short-form path.
   */
  function TenantStep(endpoint: string, tenant: Option<string>, currentTenant: string): string {
    if Truthy(tenant) then ReplaceFirst(endpoint, TenantPlaceholder, tenant.value)
    else if currentTenant != "" then ReplaceFirst(endpoint, TenantPlaceholder, currentTenant)
    else ReplaceFirst(endpoint, TenantSegment, "")
  }

  // ---------------------------------------------------------------------------
  // Each step on an arbitrary endpoint: only the first occurrence of its
  // pattern is touched, and an endpoint without one passes through.
  // ---------------------------------------------------------------------------

  /**
   * A non-empty name replaces the first `:name` and nothing else; a name
   * without `$` is inserted as it is.
   */
  lemma NameStepAt(endpoint: string, name: string, i: nat)
    requires name != "" && FirstMatch(endpoint, NamePlaceholder, i)
    ensures NameStep(endpoint, Some(name))
         == endpoint[..i]
            + GetSubstitution(name, endpoint[..i], NamePlaceholder, endpoint[i + |NamePlaceholder|..])
            + endpoint[i + |NamePlaceholder|..]
    ensures '$' !in name ==>
      NameStep(endpoint, Some(name)) == endpoint[..i] + name + endpoint[i + |NamePlaceholder|..]
  {
    ReplaceFirstAt(endpoint, NamePlaceholder, name, i);
  }

  lemma NameStepUnmatched(endpoint: string, name: Option<string>)
    requires NoMatch(endpoint, NamePlaceholder)
    ensures NameStep(endpoint, name) == endpoint
  {
    if Truthy(name) {
      ReplaceFirstAbsent(endpoint, NamePlaceholder, name.value);
    }
  }

  /** The first `:namespace` becomes the argument, or else `getNamespace_()`. */
  lemma NamespaceStepAt(endpoint: string, namespace: Option<string>, currentNamespace: string,
                        isMultiNamespace: string -> bool, i: nat)
    requires FirstMatch(endpoint, NamespacePlaceholder, i)
    ensures var v := NamespaceValue(namespace, currentNamespace, isMultiNamespace);
      NamespaceStep(endpoint, namespace, currentNamespace, isMultiNamespace)
      == endpoint[..i]
         + GetSubstitution(v, endpoint[..i], NamespacePlaceholder, endpoint[i + |NamespacePlaceholder|..])
         + endpoint[i + |NamespacePlaceholder|..]
    ensures var v := NamespaceValue(namespace, currentNamespace, isMultiNamespace);
      '$' !in v ==>
      NamespaceStep(endpoint, namespace, currentNamespace, isMultiNamespace)
      == endpoint[..i] + v + endpoint[i + |NamespacePlaceholder|..]
  {
    ReplaceFirstAt(endpoint, NamespacePlaceholder, NamespaceValue(namespace, currentNamespace, isMultiNamespace), i);
  }

  lemma NamespaceStepUnmatched(endpoint: string, namespace: Option<string>, currentNamespace: string,
                               isMultiNamespace: string -> bool)
    requires NoMatch(endpoint, NamespacePlaceholder)
    ensures NamespaceStep(endpoint, namespace, currentNamespace, isMultiNamespace) == endpoint
  {
    ReplaceFirstAbsent(endpoint, NamespacePlaceholder, NamespaceValue(namespace, currentNamespace, isMultiNamespace));
  }

  /**
   * Tiers 1 and 2 on any endpoint: the first `:tenant` becomes the tenant
   * argument if it is non-empty, otherwise the non-empty current tenant.
   */
  lemma TenantStepAt(endpoint: string, tenant: Option<string>, currentTenant: string, i: nat)
    requires Truthy(tenant) || currentTenant != ""
    requires FirstMatch(endpoint, TenantPlaceholder, i)
    ensures var t := if Truthy(tenant) then tenant.value else currentTenant;
      TenantStep(endpoint, tenant, currentTenant)
      == endpoint[..i]
         + GetSubstitution(t, endpoint[..i], TenantPlaceholder, endpoint[i + |TenantPlaceholder|..])
         + endpoint[i + |TenantPlaceholder|..]
    ensures var t := if Truthy(tenant) then tenant.value else currentTenant;
      '$' !in t ==>
      TenantStep(endpoint, tenant, currentTenant) == endpoint[..i] + t + endpoint[i + |TenantPlaceholder|..]
  {
    if Truthy(tenant) {
      ReplaceFirstAt(endpoint, TenantPlaceholder, tenant.value, i);
    } else {
      ReplaceFirstAt(endpoint, TenantPlaceholder, currentTenant, i);
    }
  }

  /** Tier 3 on any endpoint: the first `/:tenant`, slash included, is deleted. */
  lemma TenantSegmentDeletedAt(endpoint: string, tenant: Option<string>, i: nat)
    requires !Truthy(tenant) && FirstMatch(endpoint, TenantSegment, i)
    ensures TenantStep(endpoint, tenant, "") == endpoint[..i] + endpoint[i + |TenantSegment|..]
  {
    ReplaceFirstAt(endpoint, TenantSegment, "", i);
  }

  /** An endpoint without the pattern its tier looks for comes back unchanged. */
  lemma TenantStepUnmatched(endpoint: string, tenant: Option<string>, currentTenant: string)
    ensures (Truthy(tenant) || currentTenant != "") && NoMatch(endpoint, TenantPlaceholder)
            ==> TenantStep(endpoint, tenant, currentTenant) == endpoint
    ensures !Truthy(tenant) && currentTenant == "" && NoMatch(endpoint, TenantSegment)
            ==> TenantStep(endpoint, tenant, currentTenant) == endpoint
  {
    if Truthy(tenant) && NoMatch(endpoint, TenantPlaceholder) {
      ReplaceFirstAbsent(endpoint, TenantPlaceholder, tenant.value);
    } else if currentTenant != "" && NoMatch(endpoint, TenantPlaceholder) {
      ReplaceFirstAbsent(endpoint, TenantPlaceholder, currentTenant);
    } else if NoMatch(endpoint, TenantSegment) {
      ReplaceFirstAbsent(endpoint, TenantSegment, "");
    }
  }

  // ---------------------------------------------------------------------------
  // The two services.
  // ---------------------------------------------------------------------------

  /** The path `ResourceService.get` requests: name first, then tenant. */
  function ResolveResource(endpoint: string, name: Option<string>, tenant: Option<string>,
                           currentTenant: string): string {
    TenantStep(NameStep(endpoint, name), tenant, currentTenant)
  }

  /** The path `NamespacedResourceService.get` requests: namespace, then name, then tenant. */
  function ResolveNamespaced(endpoint: string, name: Option<string>, namespace: Option<string>,
                             tenant: Option<string>, currentTenant: string, currentNamespace: string,
                             isMultiNamespace: string -> bool): string {
    TenantStep(NameStep(NamespaceStep(endpoint, namespace, currentNamespace, isMultiNamespace), name),
               tenant, currentTenant)
  }

  // ---------------------------------------------------------------------------
  // Reference description: what each placeholder of a well-formed template
  // `<p>/:tenant<m1>:namespace<m2>:name<q>` becomes.
  // ---------------------------------------------------------------------------

  /** What the `/:tenant` segment becomes, by the three-tier precedence. */
  function ResolvedTenantSegment(tenant: Option<string>, currentTenant: string): string {
    if Truthy(tenant) then "/" + tenant.value
    else if currentTenant != "" then "/" + currentTenant
    else ""
  }

  /** What `:name` becomes: the name, or the placeholder itself when none is given. */
  function ResolvedName(name: Option<string>): string {
    if Truthy(name) then name.value else NamePlaceholder
  }

  // ---------------------------------------------------------------------------
  // The tenant precedence.
  // ---------------------------------------------------------------------------

  /** Tier 1: a non-empty tenant argument fills the segment, whatever the current tenant is. */
  lemma TenantArgumentWins(p: string, q: string, tenant: Option<string>, currentTenant: string)
    requires ':' !in p && Truthy(tenant) && '$' !in tenant.value
    ensures TenantStep(p + TenantSegment + q, tenant, currentTenant) == p + "/" + tenant.value + q
  {
    TenantAfterColonFreePrefix(p, q, tenant.value);
  }

  /** Tier 2: with no tenant argument, a non-empty current tenant fills the segment. */
  lemma CurrentTenantFallback(p: string, q: string, tenant: Option<string>, currentTenant: string)
    requires ':' !in p && !Truthy(tenant) && currentTenant != "" && '$' !in currentTenant
    ensures TenantStep(p + TenantSegment + q, tenant, currentTenant) == p + "/" + currentTenant + q
  {
    TenantAfterColonFreePrefix(p, q, currentTenant);
  }

  /** Tier 3: with neither, the whole `/:tenant` segment is deleted and nothing else changes. */
  lemma ShortFormPath(p: string, q: string, tenant: Option<string>)
    requires ':' !in p && !Truthy(tenant)
    ensures TenantStep(p + TenantSegment + q, tenant, "") == p + q
  {
    ReplaceAfterColonFreePrefix(p, TenantSegment, q, "", 1);
  }

  lemma TenantAfterColonFreePrefix(p: string, q: string, t: string)
    requires ':' !in p && '$' !in t
    ensures ReplaceFirst(p + TenantSegment + q, TenantPlaceholder, t) == p + "/" + t + q
  {
    assert p + TenantSegment + q == (p + "/") + TenantPlaceholder + q;
    ReplaceAfterColonFreePrefix(p + "/", TenantPlaceholder, q, t, 0);
  }

  /** All three tiers at once, against the reference `ResolvedTenantSegment`. */
  lemma TenantStepFillsSegment(p: string, q: string, tenant: Option<string>, currentTenant: string)
    requires ':' !in p && LiteralTenant(tenant, currentTenant)
    ensures TenantStep(p + TenantSegment + q, tenant, currentTenant)
         == p + ResolvedTenantSegment(tenant, currentTenant) + q
  {
    if Truthy(tenant) {
      TenantArgumentWins(p, q, tenant, currentTenant);
      Regroup4(p, "/", tenant.value, q);
    } else if currentTenant != "" {
      CurrentTenantFallback(p, q, tenant, currentTenant);
      Regroup4(p, "/", currentTenant, q);
    } else {
      ShortFormPath(p, q, tenant);
      assert p + "" + q == p + q;
    }
  }

  /** Tier 1 for any template: with a tenant argument the current tenant plays no part. */
  lemma TenantArgumentIgnoresCurrent(endpoint: string, tenant: Option<string>, current1: string, current2: string)
    requires Truthy(tenant)
    ensures TenantStep(endpoint, tenant, current1) == TenantStep(endpoint, tenant, current2)
  {
  }

  /** Tier 2 for any template: the current tenant acts as if it had been passed as the argument. */
  lemma CurrentTenantActsAsArgument(endpoint: string, tenant: Option<string>, currentTenant: string,
                                    other: string)
    requires !Truthy(tenant) && currentTenant != ""
    ensures TenantStep(endpoint, tenant, currentTenant) == TenantStep(endpoint, Some(currentTenant), other)
  {
  }

  // ---------------------------------------------------------------------------
  // Name and namespace.
  // ---------------------------------------------------------------------------

  /** A non-empty name replaces `:name`; an absent or empty one leaves it in place. */
  lemma NameFillsPlaceholder(x: string, q: string, name: Option<string>)
    requires ColonsNotFollowedBy(x, 'n')
    requires Truthy(name) ==> '$' !in name.value
    ensures NameStep(x + NamePlaceholder + q, name) == x + ResolvedName(name) + q
  {
    if Truthy(name) {
      ReplaceAfterGuardedPrefix(x, NamePlaceholder, q, name.value);
    }
  }

  /** A non-empty namespace argument replaces `:namespace`. */
  lemma NamespaceArgumentUsed(x: string, q: string, ns: string, currentNamespace: string,
                              isMultiNamespace: string -> bool)
    requires ColonsNotFollowedBy(x, 'n') && ns != "" && '$' !in ns
    ensures NamespaceStep(x + NamespacePlaceholder + q, Some(ns), currentNamespace, isMultiNamespace)
         == x + ns + q
  {
    ReplaceAfterGuardedPrefix(x, NamespacePlaceholder, q, ns);
  }

  /**
   * Without a namespace argument and with the all-namespaces sentinel as the
   * current namespace, `:namespace` becomes a single space: never the
   * sentinel itself, never the empty string.
   */
  lemma AllNamespacesBecomesBlank(x: string, q: string, namespace: Option<string>,
                                  currentNamespace: string, isMultiNamespace: string -> bool)
    requires ColonsNotFollowedBy(x, 'n') && !Truthy(namespace) && isMultiNamespace(currentNamespace)
    ensures NamespaceStep(x + NamespacePlaceholder + q, namespace, currentNamespace, isMultiNamespace)
         == x + " " + q
  {
    ReplaceAfterGuardedPrefix(x, NamespacePlaceholder, q, AllNamespacesStandIn);
  }

  /** Without a namespace argument, an ordinary current namespace replaces `:namespace`. */
  lemma CurrentNamespaceUsed(x: string, q: string, namespace: Option<string>,
                             currentNamespace: string, isMultiNamespace: string -> bool)
    requires ColonsNotFollowedBy(x, 'n') && !Truthy(namespace)
    requires !isMultiNamespace(currentNamespace) && '$' !in currentNamespace
    ensures NamespaceStep(x + NamespacePlaceholder + q, namespace, currentNamespace, isMultiNamespace)
         == x + currentNamespace + q
  {
    ReplaceAfterGuardedPrefix(x, NamespacePlaceholder, q, currentNamespace);
  }

  // ---------------------------------------------------------------------------
  // Ordering: `:name` is a prefix of `:namespace`.
  // ---------------------------------------------------------------------------

  /**
   * `ResourceService.get` replaces the first `:name` substring even when it
   * is the start of a `:namespace` placeholder.
   */
  lemma NameStepHitsNamespacePlaceholder(x: string, q: string, name: string)
    requires ColonsNotFollowedBy(x, 'n') && name != "" && '$' !in name
    ensures NameStep(x + NamespacePlaceholder + q, Some(name)) == x + name + "space" + q
  {
    assert x + NamespacePlaceholder + q == x + NamePlaceholder + ("space" + q);
    ReplaceAfterGuardedPrefix(x, NamePlaceholder, "space" + q, name);
  }

  /**
   * `NamespacedResourceService.get` substitutes the namespace first, so the
   * name then lands on the real `:name` placeholder, provided the namespace
   * value opens no new placeholder.
   */
  lemma NamespaceBeforeName(x: string, m: string, q: string, name: Option<string>,
                            namespace: Option<string>, currentNamespace: string,
                            isMultiNamespace: string -> bool)
    requires ColonsNotFollowedBy(x, 'n') && ':' !in m
    requires PlainValue(NamespaceValue(namespace, currentNamespace, isMultiNamespace))
    requires Truthy(name) ==> '$' !in name.value
    ensures NameStep(NamespaceStep(x + NamespacePlaceholder + m + NamePlaceholder + q,
                                   namespace, currentNamespace, isMultiNamespace), name)
         == x + NamespaceValue(namespace, currentNamespace, isMultiNamespace) + m + ResolvedName(name) + q
  {
    var v := NamespaceValue(namespace, currentNamespace, isMultiNamespace);
    assert x + NamespacePlaceholder + m + NamePlaceholder + q
        == x + NamespacePlaceholder + (m + NamePlaceholder + q);
    ReplaceAfterGuardedPrefix(x, NamespacePlaceholder, m + NamePlaceholder + q, v);
    assert x + v + (m + NamePlaceholder + q) == (x + v + m) + NamePlaceholder + q;
    ColonFreeIsGuarded(v, 'n');
    ColonFreeIsGuarded(m, 'n');
    ColonsNotFollowedByConcat(x, v, 'n');
    ColonsNotFollowedByConcat(x + v, m, 'n');
    NameFillsPlaceholder(x + v + m, q, name);
  }

  lemma ColonFreeIsGuarded(x: string, ch: char)
    requires ':' !in x
    ensures ColonsNotFollowedBy(x, ch)
  {
  }

  // ---------------------------------------------------------------------------
  // Whole templates.
  // ---------------------------------------------------------------------------

  /**
   * `ResourceService.get` on `<p>/:tenant<m>:name<q>`: the tenant segment
   * and the name are filled in, everything else is kept verbatim.
   */
  lemma ResolveResourceTemplate(p: string, m: string, q: string, name: Option<string>,
                                tenant: Option<string>, currentTenant: string)
    requires ':' !in p && ':' !in m
    requires Truthy(name) ==> '$' !in name.value
    requires LiteralTenant(tenant, currentTenant)
    ensures ResolveResource(p + TenantSegment + m + NamePlaceholder + q, name, tenant, currentTenant)
         == p + ResolvedTenantSegment(tenant, currentTenant) + m + ResolvedName(name) + q
  {
    var e := p + TenantSegment + m + NamePlaceholder + q;
    var x := p + TenantSegment + m;
    var n := ResolvedName(name);
    var rest := m + n + q;
    TenantPrefixGuarded(p, m);
    Regroup5(p, TenantSegment, m, NamePlaceholder, q);
    NameFillsPlaceholder(x, q, name);
    assert NameStep(e, name) == x + n + q;
    Regroup5(p, TenantSegment, m, n, q);
    TenantStepFillsSegment(p, rest, tenant, currentTenant);
    var t := ResolvedTenantSegment(tenant, currentTenant);
    assert ResolveResource(e, name, tenant, currentTenant) == p + t + rest;
    Regroup5(p, t, m, n, q);
  }

  lemma Regroup4(a: string, b: string, c: string, d: string)
    ensures a + b + c + d == a + (b + c) + d
  {
  }

  lemma Regroup5(a: string, b: string, c: string, d: string, e: string)
    ensures a + b + c + d + e == (a + b + c) + d + e
    ensures a + b + c + d + e == a + b + (c + d + e)
  {
  }

  /**
   * `NamespacedResourceService.get` on `<p>/:tenant<m1>:namespace<m2>:name<q>`:
   * each placeholder is filled by its own value, everything else is kept
   * verbatim.
   */
  lemma ResolveNamespacedTemplate(p: string, m1: string, m2: string, q: string, name: Option<string>,
                                  namespace: Option<string>, tenant: Option<string>,
                                  currentTenant: string, currentNamespace: string,
                                  isMultiNamespace: string -> bool)
    requires ':' !in p && ':' !in m1 && ':' !in m2
    requires PlainValue(NamespaceValue(namespace, currentNamespace, isMultiNamespace))
    requires Truthy(name) ==> '$' !in name.value
    requires LiteralTenant(tenant, currentTenant)
    ensures ResolveNamespaced(p + TenantSegment + m1 + NamespacePlaceholder + m2 + NamePlaceholder + q,
                              name, namespace, tenant, currentTenant, currentNamespace, isMultiNamespace)
         == p + ResolvedTenantSegment(tenant, currentTenant) + m1
              + NamespaceValue(namespace, currentNamespace, isMultiNamespace) + m2 + ResolvedName(name) + q
  {
    var e := p + TenantSegment + m1 + NamespacePlaceholder + m2 + NamePlaceholder + q;
    var v := NamespaceValue(namespace, currentNamespace, isMultiNamespace);
    var n := ResolvedName(name);
    var x := p + TenantSegment + m1;
    var rest := m1 + v + m2 + n + q;
    TenantPrefixGuarded(p, m1);
    Regroup7(p, TenantSegment, m1, NamespacePlaceholder, m2, NamePlaceholder, q);
    NamespaceBeforeName(x, m2, q, name, namespace, currentNamespace, isMultiNamespace);
    assert NameStep(NamespaceStep(e, namespace, currentNamespace, isMultiNamespace), name)
        == x + v + m2 + n + q;
    Regroup7(p, TenantSegment, m1, v, m2, n, q);
    TenantStepFillsSegment(p, rest, tenant, currentTenant);
    var t := ResolvedTenantSegment(tenant, currentTenant);
    assert ResolveNamespaced(e, name, namespace, tenant, currentTenant, currentNamespace, isMultiNamespace)
        == p + t + rest;
    Regroup7(p, t, m1, v, m2, n, q);
  }

  lemma Regroup7(a: string, b: string, c: string, d: string, e: string, f: string, g: string)
    ensures a + b + c + d + e + f + g == (a + b + c) + d + e + f + g
    ensures a + b + c + d + e + f + g == a + b + (c + d + e + f + g)
  {
  }

  /** The only `:` before the namespace and name placeholders is that of `:tenant`. */
  lemma TenantPrefixGuarded(p: string, m: string)
    requires ':' !in p && ':' !in m
    ensures ColonsNotFollowedBy(p + TenantSegment + m, 'n')
  {
    ColonFreeIsGuarded(p, 'n');
    ColonFreeIsGuarded(m, 'n');
    assert ColonsNotFollowedBy(TenantSegment, 'n') by {
      forall i | 0 <= i < |TenantSegment| && TenantSegment[i] == ':'
        ensures i + 1 < |TenantSegment| && TenantSegment[i + 1] != 'n'
      {
        assert i == 1;
      }
    }
    ColonsNotFollowedByConcat(p, TenantSegment, 'n');
    ColonsNotFollowedByConcat(p + TenantSegment, m, 'n');
  }

  // ---------------------------------------------------------------------------
  // A name holding `$`: the name step inserts the expansion of the name, not
  // the name itself.
  // ---------------------------------------------------------------------------

  /**
   * As written, a resource named `$&` never reaches the path: the name step
   * puts the `:name` placeholder back, so the request goes to the template.
   */
  lemma DollarNameKeepsPlaceholder(endpoint: string, i: nat)
    requires FirstMatch(endpoint, NamePlaceholder, i)
    ensures NameStep(endpoint, Some("$&")) == endpoint
  {
    DollarAmpersandReinsertsMatch(endpoint, NamePlaceholder, i);
  }

  /** The concrete case of a ClusterRole named `$&`. */
  lemma DollarClusterRoleNameLost()
    ensures NameStep("api/v1/clusterrole/:name", Some("$&")) == "api/v1/clusterrole/:name"
  {
    var p := "api/v1/clusterrole/";
    assert ':' !in p;
    NoMatchInColonFreePrefix(p, NamePlaceholder, "", 0);
    assert p + NamePlaceholder + "" == "api/v1/clusterrole/:name";
    DollarNameKeepsPlaceholder("api/v1/clusterrole/:name", |p|);
  }

  /**
   * The name step as evidently intended: the name is escaped for
   * GetSubstitution, so the name itself replaces the first `:name`.
   */
  function LiteralNameStep(endpoint: string, name: Option<string>): (r: string)
    ensures !Truthy(name) ==> r == endpoint
  {
    if Truthy(name) then ReplaceFirst(endpoint, NamePlaceholder, EscapeDollars(name.value)) else endpoint
  }

  /** Every non-empty name, `$` patterns included, lands verbatim on the first `:name`. */
  lemma LiteralNameStepAt(endpoint: string, name: string, i: nat)
    requires name != "" && FirstMatch(endpoint, NamePlaceholder, i)
    ensures LiteralNameStep(endpoint, Some(name)) == endpoint[..i] + name + endpoint[i + |NamePlaceholder|..]
  {
    ReplaceFirstEscapedAt(endpoint, NamePlaceholder, name, i);
  }

  /** For a name without `$` the corrected step and the step as written agree. */
  lemma LiteralNameStepAgrees(endpoint: string, name: Option<string>)
    requires Truthy(name) ==> '$' !in name.value
    ensures LiteralNameStep(endpoint, name) == NameStep(endpoint, name)
  {
  }

  // ---------------------------------------------------------------------------
  // The refresh interval.
  // ---------------------------------------------------------------------------

  /**
   * The auto-refresh interval in seconds becomes the timer period in
   * milliseconds; an interval of zero gives no period at all, which means
   * "fetch once, do not repeat".
   */
  function RefreshPeriod(seconds: nat): (period: Option<nat>)
    ensures period.None? <==> seconds == 0
    ensures period.Some? ==> period.value >= 1000 && period.value % 1000 == 0
  {
    if seconds == 0 then None else Some(seconds * 1000)
  }

  /** The interval in seconds that a period stands for. */
  function PeriodSeconds(period: Option<nat>): nat {
    match period
    case None => 0
    case Some(ms) => ms / 1000
  }

  /** No interval is lost by the conversion: it is undone by `PeriodSeconds`. */
  lemma RefreshPeriodRoundTrip(seconds: nat)
    ensures PeriodSeconds(RefreshPeriod(seconds)) == seconds
  {
  }

  /** Two different intervals give two different timer periods. */
  lemma RefreshPeriodInjective(s1: nat, s2: nat)
    requires RefreshPeriod(s1) == RefreshPeriod(s2)
    ensures s1 == s2
  {
    RefreshPeriodRoundTrip(s1);
    RefreshPeriodRoundTrip(s2);
  }
}
